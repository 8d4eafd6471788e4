/** Batch programs: steps with conditions over the results of earlier steps
    (`sqld/src/connection/program.rs`, `sqld/src/connection/libsql.rs`,
    `sqld/src/connection/mod.rs`, `sqld/src/hrana/batch.rs`). */
module Programs {
  import opened Basics

  datatype Cond =
    | OkStep(step: nat)
    | ErrStep(step: nat)
    | Not(cond: Cond)
    | And(conds: seq<Cond>)
    | Or(conds: seq<Cond>)
    | IsAutocommit

  /** A statement; its text is all that matters here. */
  type Query = string

  datatype Step = Step(query: Query, cond: Option<Cond>)

  // ---------------------------------------------------------------- conditions

  /** `Err` holds the step that was not there. */
  function EvalCond(cond: Cond, results: seq<bool>, isAutocommit: bool): Result<bool, nat>
    decreases cond
  {
    match cond
    case OkStep(step) => GetStepRes(results, step)
    case ErrStep(step) => Negate(GetStepRes(results, step))
    case Not(c) => Negate(EvalCond(c, results, isAutocommit))
    case And(conds) => TryFold(conds, results, isAutocommit, true, true)
    case Or(conds) => TryFold(conds, results, isAutocommit, false, false)
    case IsAutocommit => Ok(isAutocommit)
  }

  function GetStepRes(results: seq<bool>, step: nat): Result<bool, nat> {
    if step < |results| then Ok(results[step]) else Err(step)
  }

  function Negate(r: Result<bool, nat>): Result<bool, nat> {
    match r case Ok(b) => Ok(!b) case Err(e) => Err(e)
  }

  /** Evaluates every condition and folds the values into `x`; stops at the first error. */
  function TryFold(conds: seq<Cond>, results: seq<bool>, isAutocommit: bool, conj: bool, x: bool): Result<bool, nat>
    decreases conds
  {
    if conds == [] then Ok(x)
    else
      match EvalCond(conds[0], results, isAutocommit)
      case Err(e) => Err(e)
      case Ok(y) => TryFold(conds[1..], results, isAutocommit, conj, if conj then x && y else x || y)
  }

  /** Every step that the condition mentions is below `n`. */
  ghost predicate Within(cond: Cond, n: nat)
    decreases cond
  {
    match cond
    case OkStep(step) => step < n
    case ErrStep(step) => step < n
    case Not(c) => Within(c, n)
    case And(conds) => forall i :: 0 <= i < |conds| ==> Within(conds[i], n)
    case Or(conds) => forall i :: 0 <= i < |conds| ==> Within(conds[i], n)
    case IsAutocommit => true
  }

  /** The boolean meaning of a condition. */
  ghost predicate Holds(cond: Cond, results: seq<bool>, isAutocommit: bool)
    requires Within(cond, |results|)
    decreases cond
  {
    match cond
    case OkStep(step) => results[step]
    case ErrStep(step) => !results[step]
    case Not(c) => !Holds(c, results, isAutocommit)
    case And(conds) => forall i :: 0 <= i < |conds| ==> Holds(conds[i], results, isAutocommit)
    case Or(conds) => exists i :: 0 <= i < |conds| && Holds(conds[i], results, isAutocommit)
    case IsAutocommit => isAutocommit
  }

  /** Evaluation fails if and only if a step is mentioned that has not run, and otherwise
      gives the boolean meaning. */
  lemma {:induction false} EvalDecides(cond: Cond, results: seq<bool>, isAutocommit: bool)
    ensures EvalCond(cond, results, isAutocommit).Ok? <==> Within(cond, |results|)
    ensures Within(cond, |results|) ==> EvalCond(cond, results, isAutocommit) == Ok(Holds(cond, results, isAutocommit))
    decreases cond
  {
    match cond
    case Not(c) => EvalDecides(c, results, isAutocommit);
    case And(conds) => FoldDecides(conds, results, isAutocommit, true, true);
    case Or(conds) => FoldDecides(conds, results, isAutocommit, false, false);
    case _ =>
  }

  lemma {:induction false} FoldDecides(conds: seq<Cond>, results: seq<bool>, isAutocommit: bool, conj: bool, x: bool)
    ensures TryFold(conds, results, isAutocommit, conj, x).Ok? <==>
      forall i :: 0 <= i < |conds| ==> Within(conds[i], |results|)
    ensures (forall i :: 0 <= i < |conds| ==> Within(conds[i], |results|)) ==>
      TryFold(conds, results, isAutocommit, conj, x) ==
        Ok(if conj then x && forall i :: 0 <= i < |conds| ==> Holds(conds[i], results, isAutocommit)
           else x || exists i :: 0 <= i < |conds| && Holds(conds[i], results, isAutocommit))
    decreases conds
  {
    if conds != [] {
      EvalDecides(conds[0], results, isAutocommit);
      var rest := conds[1..];
      if EvalCond(conds[0], results, isAutocommit).Ok? {
        var y := EvalCond(conds[0], results, isAutocommit).value;
        FoldDecides(rest, results, isAutocommit, conj, if conj then x && y else x || y);
        assert forall i :: 0 <= i < |rest| ==> rest[i] == conds[i + 1];
        assert forall i :: 1 <= i < |conds| ==> conds[i] == rest[i - 1];
      }
    }
  }

  // ---------------------------------------------------------------- conditions of the protocol

  datatype BatchCond =
    | NoneCond
    | OkCond(okStep: nat)
    | ErrorCond(errorStep: nat)
    | NotCond(cond: BatchCond)
    | AndCond(conds: seq<BatchCond>)
    | OrCond(conds: seq<BatchCond>)
    | IsAutocommitCond

  datatype ProtocolError = BatchCondBadStep | NoneBatchCond | NotSupported

  function ProtoCondToCond(cond: BatchCond, version: nat, maxStep: nat): Result<Cond, ProtocolError>
    decreases cond
  {
    match cond
    case NoneCond => Err(NoneBatchCond)
    case OkCond(step) => if step >= maxStep then Err(BatchCondBadStep) else Ok(OkStep(step))
    case ErrorCond(step) => if step >= maxStep then Err(BatchCondBadStep) else Ok(ErrStep(step))
    case NotCond(c) =>
      (match ProtoCondToCond(c, version, maxStep)
       case Err(e) => Err(e)
       case Ok(x) => Ok(Not(x)))
    case AndCond(conds) =>
      (match ProtoCondsToConds(conds, version, maxStep)
       case Err(e) => Err(e)
       case Ok(xs) => Ok(And(xs)))
    case OrCond(conds) =>
      (match ProtoCondsToConds(conds, version, maxStep)
       case Err(e) => Err(e)
       case Ok(xs) => Ok(Or(xs)))
    case IsAutocommitCond => if version < 3 then Err(NotSupported) else Ok(IsAutocommit)
  }

  function ProtoCondsToConds(conds: seq<BatchCond>, version: nat, maxStep: nat): Result<seq<Cond>, ProtocolError>
    decreases conds
  {
    if conds == [] then Ok([])
    else
      match ProtoCondToCond(conds[0], version, maxStep)
      case Err(e) => Err(e)
      case Ok(x) =>
        match ProtoCondsToConds(conds[1..], version, maxStep)
        case Err(e) => Err(e)
        case Ok(xs) => Ok([x] + xs)
  }

  /** What the protocol asks of a condition, and what it means, said on the client's own terms. */
  ghost predicate Acceptable(cond: BatchCond, version: nat, maxStep: nat)
    decreases cond
  {
    match cond
    case NoneCond => false
    case OkCond(step) => step < maxStep
    case ErrorCond(step) => step < maxStep
    case NotCond(c) => Acceptable(c, version, maxStep)
    case AndCond(conds) => forall i :: 0 <= i < |conds| ==> Acceptable(conds[i], version, maxStep)
    case OrCond(conds) => forall i :: 0 <= i < |conds| ==> Acceptable(conds[i], version, maxStep)
    case IsAutocommitCond => version >= 3
  }

  ghost predicate Means(cond: BatchCond, version: nat, results: seq<bool>, isAutocommit: bool)
    requires Acceptable(cond, version, |results|)
    decreases cond
  {
    match cond
    case OkCond(step) => results[step]
    case ErrorCond(step) => !results[step]
    case NotCond(c) => !Means(c, version, results, isAutocommit)
    case AndCond(conds) => forall i :: 0 <= i < |conds| ==> Means(conds[i], version, results, isAutocommit)
    case OrCond(conds) => exists i :: 0 <= i < |conds| && Means(conds[i], version, results, isAutocommit)
    case IsAutocommitCond => isAutocommit
  }

  /** A condition is accepted if and only if it is acceptable; then it mentions only earlier
      steps and means what the client said. */
  lemma {:induction false} ConversionIsFaithful(cond: BatchCond, version: nat, results: seq<bool>, isAutocommit: bool)
    ensures ProtoCondToCond(cond, version, |results|).Ok? <==> Acceptable(cond, version, |results|)
    ensures Acceptable(cond, version, |results|) ==>
      && Within(ProtoCondToCond(cond, version, |results|).value, |results|)
      && (Holds(ProtoCondToCond(cond, version, |results|).value, results, isAutocommit) <==>
            Means(cond, version, results, isAutocommit))
    decreases cond
  {
    match cond
    case NotCond(c) => ConversionIsFaithful(c, version, results, isAutocommit);
    case AndCond(conds) => ListIsFaithful(conds, version, results, isAutocommit);
    case OrCond(conds) => ListIsFaithful(conds, version, results, isAutocommit);
    case _ =>
  }

  lemma {:induction false} ListIsFaithful(conds: seq<BatchCond>, version: nat, results: seq<bool>, isAutocommit: bool)
    ensures ProtoCondsToConds(conds, version, |results|).Ok? <==>
      forall i :: 0 <= i < |conds| ==> Acceptable(conds[i], version, |results|)
    ensures ProtoCondsToConds(conds, version, |results|).Ok? ==>
      var xs := ProtoCondsToConds(conds, version, |results|).value;
      && |xs| == |conds|
      && forall i :: 0 <= i < |conds| ==>
        && Acceptable(conds[i], version, |results|) && Within(xs[i], |results|)
        && (Holds(xs[i], results, isAutocommit) <==> Means(conds[i], version, results, isAutocommit))
    decreases conds
  {
    if conds != [] {
      ConversionIsFaithful(conds[0], version, results, isAutocommit);
      ListIsFaithful(conds[1..], version, results, isAutocommit);
      assert forall i :: 1 <= i < |conds| ==> conds[i] == conds[1..][i - 1];
      assert forall i :: 0 <= i < |conds| - 1 ==> conds[1..][i] == conds[i + 1];
    }
  }

  // ---------------------------------------------------------------- programs

  /** Every condition mentions only earlier steps. */
  ghost predicate InScope(pgm: seq<Step>) {
    forall i :: 0 <= i < |pgm| ==> pgm[i].cond.Some? ==> Within(pgm[i].cond.value, i)
  }

  /** A step of a client's batch; `query` is what its statement converts to, if it does. */
  datatype BatchStep = BatchStep(query: Option<Query>, condition: Option<BatchCond>)

  ghost predicate Convertible(step: BatchStep, version: nat, i: nat) {
    step.query.Some? && (step.condition.Some? ==> Acceptable(step.condition.value, version, i))
  }

  /** The step of the program does what the client's step says, for every result of the earlier
      steps. */
  ghost predicate SameStep(step: Step, batchStep: BatchStep, version: nat, i: nat)
    requires Convertible(batchStep, version, i)
  {
    && step.query == batchStep.query.value
    && (step.cond.Some? <==> batchStep.condition.Some?)
    && (step.cond.Some? ==>
          && Within(step.cond.value, i)
          && forall results: seq<bool>, auto: bool {:trigger Holds(step.cond.value, results, auto)} ::
            |results| == i ==>
            (Holds(step.cond.value, results, auto) <==> Means(batchStep.condition.value, version, results, auto)))
  }

  /** Converts a client's batch, step by step. */
  method ProtoBatchToProgram(batch: seq<BatchStep>, version: nat) returns (r: Option<seq<Step>>)
    ensures r.Some? <==> forall i :: 0 <= i < |batch| ==> Convertible(batch[i], version, i)
    ensures r.Some? ==> InScope(r.value) && |r.value| == |batch|
    ensures r.Some? ==> forall i :: 0 <= i < |batch| ==> SameStep(r.value[i], batch[i], version, i)
  {
    hide Acceptable, Within, Holds, Means;
    var steps: seq<Step> := [];
    for i: nat := 0 to |batch|
      invariant |steps| == i && InScope(steps)
      invariant forall j :: 0 <= j < i ==> Convertible(batch[j], version, j) && SameStep(steps[j], batch[j], version, j)
    {
      if batch[i].query.None? {
        return None;
      }
      var cond: Option<Cond> := None;
      if batch[i].condition.Some? {
        ConvertedCond(batch[i].condition.value, version, i);
        match ProtoCondToCond(batch[i].condition.value, version, i) {
          case Err(e) => return None;
          case Ok(c) => cond := Some(c);
        }
      }
      steps := steps + [Step(batch[i].query.value, cond)];
    }
    return Some(steps);
  }

  lemma ConvertedCond(cond: BatchCond, version: nat, i: nat)
    ensures ProtoCondToCond(cond, version, i).Ok? <==> Acceptable(cond, version, i)
    ensures Acceptable(cond, version, i) ==> Within(ProtoCondToCond(cond, version, i).value, i)
    ensures Acceptable(cond, version, i) ==>
      forall results: seq<bool>, auto: bool {:trigger Holds(ProtoCondToCond(cond, version, i).value, results, auto)} ::
        |results| == i ==>
        (Holds(ProtoCondToCond(cond, version, i).value, results, auto) <==> Means(cond, version, results, auto))
  {
    hide Acceptable, Within, Holds, Means, ProtoCondToCond;
    ConversionIsFaithful(cond, version, seq(i, _ => false), false);
    forall results: seq<bool>, auto: bool | |results| == i && Acceptable(cond, version, i)
      ensures Within(ProtoCondToCond(cond, version, i).value, i)
      ensures Holds(ProtoCondToCond(cond, version, i).value, results, auto) <==> Means(cond, version, results, auto)
    {
      ConversionIsFaithful(cond, version, results, auto);
    }
  }

  /** Each query runs if the one before it succeeded. */
  ghost predicate IsBatchProgram(steps: seq<Step>, batch: seq<Query>) {
    && |steps| == |batch|
    && forall i :: 0 <= i < |batch| ==> steps[i] == Step(batch[i], if i > 0 then Some(OkStep(i - 1)) else None)
  }

  method MakeBatchProgram(batch: seq<Query>) returns (steps: seq<Step>)
    ensures IsBatchProgram(steps, batch)
  {
    steps := [];
    for i: nat := 0 to |batch|
      invariant |steps| == i
      invariant forall j :: 0 <= j < i ==> steps[j] == Step(batch[j], if j > 0 then Some(OkStep(j - 1)) else None)
    {
      var cond := if i > 0 then Some(OkStep(i - 1)) else None;
      steps := steps + [Step(batch[i], cond)];
    }
  }

  function Rollback(n: nat): Step
    requires n > 0
  {
    Step("ROLLBACK", Some(Not(OkStep(n - 1))))
  }

  /** The program of `execute_batch_or_rollback`. */
  method BatchOrRollback(batch: seq<Query>) returns (steps: seq<Step>)
    ensures batch == [] ==> steps == []
    ensures batch != [] ==>
      && |steps| == |batch| + 1 && IsBatchProgram(steps[..|batch|], batch)
      && steps[|batch|] == Step("ROLLBACK", Some(Not(OkStep(|batch| - 1))))
  {
    steps := MakeBatchProgram(batch);
    if steps != [] {
      assert (steps + [Rollback(|steps|)])[..|steps|] == steps;
      steps := steps + [Rollback(|steps|)];
    }
  }

  // ---------------------------------------------------------------- what runs

  /** Whether a step is enabled; a condition that cannot be evaluated disables it. */
  function Enabled(step: Step, results: seq<bool>, auto: bool): Result<bool, nat> {
    if step.cond.None? then Ok(true) else EvalCond(step.cond.value, results, auto)
  }

  function Runs(step: Step, results: seq<bool>, auto: bool): bool {
    Enabled(step, results, auto) == Ok(true)
  }

  /** The results of the first `k` steps: which of them ran and succeeded.  `succeeds` tells
      how each query would go, `auto` whether the connection is in autocommit mode before it. */
  function Results(pgm: seq<Step>, succeeds: nat -> bool, auto: nat -> bool, k: nat): (r: seq<bool>)
    requires k <= |pgm|
    ensures |r| == k
  {
    if k == 0 then []
    else
      var r := Results(pgm, succeeds, auto, k - 1);
      r + [Runs(pgm[k - 1], r, auto(k - 1)) && succeeds(k - 1)]
  }

  lemma {:induction false} ResultsPrefix(pgm: seq<Step>, pgm': seq<Step>, succeeds: nat -> bool, auto: nat -> bool,
                                         k: nat)
    requires k <= |pgm| && pgm <= pgm'
    ensures Results(pgm, succeeds, auto, k) == Results(pgm', succeeds, auto, k)
  {
    if k > 0 {
      ResultsPrefix(pgm, pgm', succeeds, auto, k - 1);
    }
  }

  /** A program in scope never refers to a step that has not run. */
  lemma NeverInvalidStep(pgm: seq<Step>, succeeds: nat -> bool, auto: nat -> bool, i: nat)
    requires InScope(pgm) && i < |pgm|
    ensures Enabled(pgm[i], Results(pgm, succeeds, auto, i), auto(i)).Ok?
  {
    if pgm[i].cond.Some? {
      EvalDecides(pgm[i].cond.value, Results(pgm, succeeds, auto, i), auto(i));
    }
  }

  ghost predicate AllSucceed(succeeds: nat -> bool, n: nat) {
    forall j: nat :: j < n ==> succeeds(j)
  }

  /** In a batch a query runs if and only if all earlier ones succeeded. */
  lemma {:induction false} BatchRuns(steps: seq<Step>, batch: seq<Query>, succeeds: nat -> bool, auto: nat -> bool,
                                     i: nat)
    requires IsBatchProgram(steps, batch) && i < |batch|
    ensures Runs(steps[i], Results(steps, succeeds, auto, i), auto(i)) <==> AllSucceed(succeeds, i)
    ensures Results(steps, succeeds, auto, i + 1)[i] <==> AllSucceed(succeeds, i + 1)
  {
    if i > 0 {
      BatchRuns(steps, batch, succeeds, auto, i - 1);
    }
    assert AllSucceed(succeeds, i + 1) <==> AllSucceed(succeeds, i) && succeeds(i);
  }

  lemma RollbackCond(results: seq<bool>, auto: bool)
    requires results != []
    ensures Runs(Rollback(|results|), results, auto) <==> !results[|results| - 1]
  {
    assert EvalCond(OkStep(|results| - 1), results, auto) == Ok(results[|results| - 1]);
  }

  /** The rollback runs if and only if some query failed. */
  lemma RollbackRuns(steps: seq<Step>, batch: seq<Query>, succeeds: nat -> bool, auto: nat -> bool)
    requires batch != [] && |steps| == |batch| + 1
    requires IsBatchProgram(steps[..|batch|], batch) && steps[|batch|] == Rollback(|batch|)
    ensures Runs(steps[|batch|], Results(steps, succeeds, auto, |batch|), auto(|batch|)) <==>
      exists j: nat :: j < |batch| && !succeeds(j)
  {
    hide Results, Runs, Rollback, IsBatchProgram;
    var n := |batch|;
    BatchRuns(steps[..n], batch, succeeds, auto, n - 1);
    ResultsPrefix(steps[..n], steps, succeeds, auto, n);
    RollbackCond(Results(steps, succeeds, auto, n), auto(n));
  }

  // ---------------------------------------------------------------- the documented meaning

  /** Whether a step runs. */
  function Ran(pgm: seq<Step>, succeeds: nat -> bool, auto: nat -> bool, i: nat): bool
    requires i < |pgm|
  {
    Runs(pgm[i], Results(pgm, succeeds, auto, i), auto(i))
  }

  /** Which of the first `k` steps ran and failed. */
  function Failures(pgm: seq<Step>, succeeds: nat -> bool, auto: nat -> bool, k: nat): seq<bool>
    requires k <= |pgm|
  {
    seq(k, i requires 0 <= i < k => Ran(pgm, succeeds, auto, i) && !succeeds(i))
  }

  /** The meaning of a condition as the protocol describes it: `error` is about a step that has
      produced an error, so it is false for a skipped one. */
  ghost predicate Documented(cond: Cond, results: seq<bool>, failures: seq<bool>, isAutocommit: bool)
    requires |failures| == |results| && Within(cond, |results|)
    decreases cond
  {
    match cond
    case OkStep(step) => results[step]
    case ErrStep(step) => failures[step]
    case Not(c) => !Documented(c, results, failures, isAutocommit)
    case And(conds) => forall i :: 0 <= i < |conds| ==> Documented(conds[i], results, failures, isAutocommit)
    case Or(conds) => exists i :: 0 <= i < |conds| && Documented(conds[i], results, failures, isAutocommit)
    case IsAutocommit => isAutocommit
  }

  lemma {:induction false} ResultAt(pgm: seq<Step>, succeeds: nat -> bool, auto: nat -> bool, i: nat, k: nat)
    requires i < k <= |pgm|
    ensures Results(pgm, succeeds, auto, k)[i] == (Ran(pgm, succeeds, auto, i) && succeeds(i))
  {
    hide Runs;
    if i < k - 1 {
      ResultAt(pgm, succeeds, auto, i, k - 1);
    }
  }

  /** The code gives `error` its documented meaning if and only if the step ran. */
  lemma ErrorIsAsDocumented(pgm: seq<Step>, succeeds: nat -> bool, auto: nat -> bool, i: nat, k: nat,
                            isAutocommit: bool)
    requires i < k <= |pgm|
    ensures EvalCond(ErrStep(i), Results(pgm, succeeds, auto, k), isAutocommit)
         == Ok(Documented(ErrStep(i), Results(pgm, succeeds, auto, k), Failures(pgm, succeeds, auto, k), isAutocommit))
      <==> Ran(pgm, succeeds, auto, i)
  {
    hide Results, Ran;
    ResultAt(pgm, succeeds, auto, i, k);
  }

  /** No `error` in the condition names a skipped step. */
  ghost predicate NamesNoSkipped(cond: Cond, pgm: seq<Step>, succeeds: nat -> bool, auto: nat -> bool, k: nat)
    requires k <= |pgm| && Within(cond, k)
    decreases cond
  {
    match cond
    case ErrStep(step) => Ran(pgm, succeeds, auto, step)
    case Not(c) => NamesNoSkipped(c, pgm, succeeds, auto, k)
    case And(conds) => forall i :: 0 <= i < |conds| ==> NamesNoSkipped(conds[i], pgm, succeeds, auto, k)
    case Or(conds) => forall i :: 0 <= i < |conds| ==> NamesNoSkipped(conds[i], pgm, succeeds, auto, k)
    case _ => true
  }

  lemma {:induction false} HoldsAsDocumented(cond: Cond, pgm: seq<Step>, succeeds: nat -> bool, auto: nat -> bool,
                                             k: nat, isAutocommit: bool)
    requires k <= |pgm| && Within(cond, k) && NamesNoSkipped(cond, pgm, succeeds, auto, k)
    ensures Holds(cond, Results(pgm, succeeds, auto, k), isAutocommit) <==>
      Documented(cond, Results(pgm, succeeds, auto, k), Failures(pgm, succeeds, auto, k), isAutocommit)
    decreases cond
  {
    hide Results, Ran;
    match cond
    case ErrStep(step) => ResultAt(pgm, succeeds, auto, step, k);
    case Not(c) => HoldsAsDocumented(c, pgm, succeeds, auto, k, isAutocommit);
    case And(conds) =>
      forall i | 0 <= i < |conds|
        ensures Holds(conds[i], Results(pgm, succeeds, auto, k), isAutocommit) <==>
          Documented(conds[i], Results(pgm, succeeds, auto, k), Failures(pgm, succeeds, auto, k), isAutocommit)
      {
        HoldsAsDocumented(conds[i], pgm, succeeds, auto, k, isAutocommit);
      }
    case Or(conds) =>
      forall i | 0 <= i < |conds|
        ensures Holds(conds[i], Results(pgm, succeeds, auto, k), isAutocommit) <==>
          Documented(conds[i], Results(pgm, succeeds, auto, k), Failures(pgm, succeeds, auto, k), isAutocommit)
      {
        HoldsAsDocumented(conds[i], pgm, succeeds, auto, k, isAutocommit);
      }
    case _ =>
  }

  /** A condition at any depth means what is documented when no `error` in it names a skipped
      step. */
  lemma ConditionIsAsDocumented(cond: Cond, pgm: seq<Step>, succeeds: nat -> bool, auto: nat -> bool, k: nat,
                                isAutocommit: bool)
    requires k <= |pgm| && Within(cond, k) && NamesNoSkipped(cond, pgm, succeeds, auto, k)
    ensures EvalCond(cond, Results(pgm, succeeds, auto, k), isAutocommit)
         == Ok(Documented(cond, Results(pgm, succeeds, auto, k), Failures(pgm, succeeds, auto, k), isAutocommit))
  {
    hide Results, EvalCond, Documented, Holds;
    EvalDecides(cond, Results(pgm, succeeds, auto, k), isAutocommit);
    HoldsAsDocumented(cond, pgm, succeeds, auto, k, isAutocommit);
  }

  /** A program of two steps: the first is skipped, and the second, which is to run when the
      first has produced an error, runs. */
  lemma SkippedStepCountsAsError() returns (pgm: seq<Step>)
    ensures |pgm| == 2 && InScope(pgm) && pgm[1].cond == Some(ErrStep(0))
    ensures forall succeeds: nat -> bool, auto: nat -> bool ::
      && !Ran(pgm, succeeds, auto, 0) && Ran(pgm, succeeds, auto, 1)
      && !Documented(ErrStep(0), Results(pgm, succeeds, auto, 1), Failures(pgm, succeeds, auto, 1), auto(1))
  {
    var first, second := Step("INSERT", Some(Or([]))), Step("SELECT", Some(ErrStep(0)));
    pgm := [first, second];
    forall succeeds: nat -> bool, auto: nat -> bool
      ensures !Ran(pgm, succeeds, auto, 0) && Ran(pgm, succeeds, auto, 1)
      ensures !Documented(ErrStep(0), Results(pgm, succeeds, auto, 1), Failures(pgm, succeeds, auto, 1), auto(1))
    {
      assert EvalCond(Or([]), [], auto(0)) == TryFold([], [], auto(0), false, false);
      assert !Runs(first, [], auto(0));
      assert Results(pgm, succeeds, auto, 1) == [] + [false];
    }
  }
}
