/**
 Running the hook list of one lifecycle phase (`run_service_hook`): which steps run,
 when a failure counts as handled, and which error comes out. What a condition
 evaluates to and how a step ends are inputs.
 */
module HookList {
  import opened Wrappers

  /** What evaluating a dynamic `if` gave; without a config handle it is not evaluated and the step runs. */
  datatype Verdict = Truthy(failureChecked: bool) | Falsy | EvalError | NotEvaluated

  datatype Condition = Absent | Static(value: bool) | Dynamic(verdict: Verdict)

  /** How the step ends if it runs; a success may capture named output. */
  datatype Outcome = Succeeded(output: Option<(string, string)>) | Failed(error: string)

  datatype HookStep = HookStep(condition: Condition, outcome: Outcome)

  datatype Hooks = Hooks(hadFailure: bool, firstError: Option<string>, failureChecked: bool, outputs: map<string, string>)

  const Start := Hooks(false, None, false, map[])

  predicate Runs(h: Hooks, step: HookStep) {
    match step.condition
    case Absent => !h.hadFailure
    case Static(value) => value
    case Dynamic(verdict) => verdict.Truthy? || verdict.NotEvaluated?
  }

  /** The flag once the condition is evaluated: set by a dynamic condition, otherwise carried over. */
  function FlagAfter(h: Hooks, step: HookStep): bool {
    if step.condition.Dynamic? && step.condition.verdict.Truthy? then step.condition.verdict.failureChecked
    else h.failureChecked
  }

  function Execute(h: Hooks, flag: bool, outcome: Outcome): Hooks {
    match outcome
    case Succeeded(output) =>
      var outputs := if output.Some? then h.outputs[output.value.0 := output.value.1] else h.outputs;
      if h.hadFailure && flag then Hooks(false, None, false, outputs)
      else h.(failureChecked := flag, outputs := outputs)
    case Failed(error) =>
      h.(hadFailure := true, failureChecked := flag, firstError := if h.firstError.None? then Some(error) else h.firstError)
  }

  function Step(h: Hooks, step: HookStep): Hooks {
    if Runs(h, step) then Execute(h, FlagAfter(h, step), step.outcome) else h
  }

  function Run(steps: seq<HookStep>): Hooks {
    if steps == [] then Start else Step(Run(steps[..|steps| - 1]), steps[|steps| - 1])
  }

  /** `run_service_hook`, from the point where the list is known to have steps. */
  method RunServiceHook(steps: seq<HookStep>) returns (r: Result<map<string, string>, string>)
    ensures r == if Run(steps).firstError.Some? then Err(Run(steps).firstError.value) else Ok(Run(steps).outputs)
  {
    var hadFailure, failureChecked := false, false;
    var firstError: Option<string> := None;
    var outputs: map<string, string> := map[];
    for i := 0 to |steps|
      invariant Run(steps[..i]) == Hooks(hadFailure, firstError, failureChecked, outputs)
    {
      var step := steps[i];
      assert steps[..i + 1][..i] == steps[..i];
      match step.condition {
        case Absent =>
          if hadFailure {
            continue;
          }
        case Static(value) =>
          if !value {
            continue;
          }
        case Dynamic(verdict) =>
          match verdict {
            case Truthy(checked) =>
              failureChecked := checked;
            case Falsy =>
              continue;
            case EvalError =>
              continue;
            case NotEvaluated =>
          }
      }
      match step.outcome {
        case Succeeded(output) =>
          if hadFailure && failureChecked {
            firstError := None;
            hadFailure := false;
            failureChecked := false;
          }
          if output.Some? {
            outputs := outputs[output.value.0 := output.value.1];
          }
        case Failed(error) =>
          hadFailure := true;
          if firstError.None? {
            firstError := Some(error);
          }
      }
    }
    assert steps[..|steps|] == steps;
    if firstError.Some? {
      return Err(firstError.value);
    }
    return Ok(outputs);
  }

  // ----- failures and recoveries of a run, step by step

  predicate RanAt(steps: seq<HookStep>, i: nat) {
    i < |steps| && Runs(Run(steps[..i]), steps[i])
  }

  predicate FailsAt(steps: seq<HookStep>, i: nat) {
    RanAt(steps, i) && steps[i].outcome.Failed?
  }

  predicate RecoversAt(steps: seq<HookStep>, i: nat) {
    && RanAt(steps, i) && steps[i].outcome.Succeeded?
    && Run(steps[..i]).hadFailure && FlagAfter(Run(steps[..i]), steps[i])
  }

  /** A recovery happened after step `i`, before step `n`. */
  ghost predicate RecoveredBetween(steps: seq<HookStep>, i: int, n: int) {
    exists r: nat :: i < r < n && RecoversAt(steps, r)
  }

  /** The earliest failure that no recovery has followed. */
  ghost predicate FirstOutstanding(steps: seq<HookStep>, i: nat) {
    && FailsAt(steps, i) && !RecoveredBetween(steps, i, |steps|)
    && forall j: nat :: j < i && FailsAt(steps, j) ==> RecoveredBetween(steps, j, i)
  }

  lemma PrefixSame(steps: seq<HookStep>, n: nat, i: nat)
    requires i < n <= |steps|
    ensures RanAt(steps[..n], i) == RanAt(steps, i)
    ensures FailsAt(steps[..n], i) == FailsAt(steps, i)
    ensures RecoversAt(steps[..n], i) == RecoversAt(steps, i)
  {
    assert steps[..n][..i] == steps[..i];
  }

  lemma {:induction false} FlagMatchesError(steps: seq<HookStep>)
    ensures Run(steps).hadFailure <==> Run(steps).firstError.Some?
  {
    if steps != [] {
      FlagMatchesError(steps[..|steps| - 1]);
    }
  }

  ghost predicate AllRecovered(steps: seq<HookStep>) {
    forall j: nat :: FailsAt(steps, j) ==> RecoveredBetween(steps, j, |steps|)
  }

  lemma FreshFailure(steps: seq<HookStep>)
    requires steps != [] && AllRecovered(steps[..|steps| - 1]) && FailsAt(steps, |steps| - 1)
    ensures FirstOutstanding(steps, |steps| - 1)
  {
    var last := |steps| - 1;
    forall j: nat | j < last && FailsAt(steps, j) ensures RecoveredBetween(steps, j, last) {
      PrefixSame(steps, last, j);
      SameBetween(steps, last, j, last);
    }
  }

  lemma StillRecovered(steps: seq<HookStep>)
    requires steps != [] && AllRecovered(steps[..|steps| - 1]) && !FailsAt(steps, |steps| - 1)
    ensures AllRecovered(steps)
  {
    var last := |steps| - 1;
    forall j: nat | FailsAt(steps, j) ensures RecoveredBetween(steps, j, |steps|) {
      PrefixSame(steps, last, j);
      SameBetween(steps, last, j, last);
      var r: nat :| j < r < last && RecoversAt(steps, r);
      assert j < r < |steps| && RecoversAt(steps, r);
    }
  }

  lemma RecoveryClears(steps: seq<HookStep>)
    requires steps != [] && RecoversAt(steps, |steps| - 1)
    ensures AllRecovered(steps)
  {
    forall j: nat | FailsAt(steps, j) ensures RecoveredBetween(steps, j, |steps|) {
      assert j < |steps| - 1 < |steps| && RecoversAt(steps, |steps| - 1);
    }
  }

  /** What the run returns is the earliest error since the last recovery; without one, every failure was recovered from. */
  lemma {:induction false} ErrorIsFirstOutstanding(steps: seq<HookStep>)
    ensures match Run(steps).firstError
            case Some(error) => exists i: nat :: FirstOutstanding(steps, i) && steps[i].outcome == Failed(error)
            case None => AllRecovered(steps)
  {
    if steps != [] {
      var last := |steps| - 1;
      var init := steps[..last];
      var h := Run(init);
      ErrorIsFirstOutstanding(init);
      FlagMatchesError(init);
      if RecoversAt(steps, last) {
        RecoveryClears(steps);
      } else if h.firstError.Some? {
        var i: nat :| FirstOutstanding(init, i) && init[i].outcome == Failed(h.firstError.value);
        ExtendOutstanding(steps, i);
      } else if FailsAt(steps, last) {
        FreshFailure(steps);
      } else {
        StillRecovered(steps);
      }
    }
  }

  lemma SameBetween(steps: seq<HookStep>, last: nat, j: nat, n: int)
    requires last <= |steps| && n <= last
    ensures RecoveredBetween(steps[..last], j, n) == RecoveredBetween(steps, j, n)
  {
    var init := steps[..last];
    if RecoveredBetween(init, j, n) {
      var r: nat :| j < r < n && RecoversAt(init, r);
      PrefixSame(steps, last, r);
      assert j < r < n && RecoversAt(steps, r);
    }
    if RecoveredBetween(steps, j, n) {
      var r: nat :| j < r < n && RecoversAt(steps, r);
      PrefixSame(steps, last, r);
      assert j < r < n && RecoversAt(init, r);
    }
  }

  lemma ExtendOutstanding(steps: seq<HookStep>, i: nat)
    requires steps != [] && FirstOutstanding(steps[..|steps| - 1], i) && !RecoversAt(steps, |steps| - 1)
    ensures FirstOutstanding(steps, i)
  {
    var last := |steps| - 1;
    var init := steps[..last];
    PrefixSame(steps, last, i);
    SameBetween(steps, last, i, last);
    assert !RecoveredBetween(steps, i, |steps|);
    forall j: nat | j < i && FailsAt(steps, j) ensures RecoveredBetween(steps, j, i) {
      PrefixSame(steps, last, j);
      SameBetween(steps, last, j, i);
    }
  }

  /** A step without a condition runs exactly when no failure is outstanding. */
  lemma UnconditionedNeedsSuccess(steps: seq<HookStep>, i: nat)
    requires i < |steps| && steps[i].condition.Absent?
    ensures RanAt(steps, i) <==> forall j: nat :: j < i && FailsAt(steps, j) ==> RecoveredBetween(steps, j, i)
  {
    var init := steps[..i];
    FlagMatchesError(init);
    ErrorIsFirstOutstanding(init);
    if RanAt(steps, i) {
      forall j: nat | j < i && FailsAt(steps, j) ensures RecoveredBetween(steps, j, i) {
        PrefixSame(steps, i, j);
        SameBetween(steps, i, j, i);
      }
    } else {
      var j: nat :| FirstOutstanding(init, j);
      PrefixSame(steps, i, j);
      SameBetween(steps, i, j, i);
      assert j < i && FailsAt(steps, j) && !RecoveredBetween(steps, j, i);
    }
  }

  /** The condition lets the step run whatever happened before. */
  predicate AlwaysRuns(condition: Condition) {
    match condition
    case Absent => false
    case Static(value) => value
    case Dynamic(Truthy(_)) => true
    case Dynamic(NotEvaluated) => true
    case Dynamic(Falsy) => false
    case Dynamic(EvalError) => false
  }

  /** A step with a condition runs exactly when the condition says so, failures or not. */
  lemma ConditionDecides(steps: seq<HookStep>, i: nat)
    requires i < |steps| && !steps[i].condition.Absent?
    ensures RanAt(steps, i) <==> AlwaysRuns(steps[i].condition)
  {
  }

  // ----- runs without a failure, told from the step list alone

  /** Step `i` is one to run, and captures `value` under `name`. */
  predicate Captures(steps: seq<HookStep>, i: nat, name: string, value: string) {
    && i < |steps| && (steps[i].condition.Absent? || AlwaysRuns(steps[i].condition))
    && steps[i].outcome == Succeeded(Some((name, value)))
  }

  predicate CapturesSome(steps: seq<HookStep>, i: nat, name: string) {
    && i < |steps| && (steps[i].condition.Absent? || AlwaysRuns(steps[i].condition))
    && steps[i].outcome.Succeeded? && steps[i].outcome.output.Some? && steps[i].outcome.output.value.0 == name
  }

  ghost predicate LastCapture(steps: seq<HookStep>, i: nat, name: string, value: string) {
    Captures(steps, i, name, value) && forall j: nat :: i < j ==> !CapturesSome(steps, j, name)
  }

  lemma {:induction false} NoFailureNoFlag(steps: seq<HookStep>)
    requires forall i :: 0 <= i < |steps| ==> steps[i].outcome.Succeeded?
    ensures !Run(steps).hadFailure && Run(steps).firstError.None?
  {
    if steps != [] {
      NoFailureNoFlag(steps[..|steps| - 1]);
    }
  }

  /** Without a failing step every step runs whose condition does not forbid it. */
  lemma RunsUnlessForbidden(steps: seq<HookStep>, i: nat)
    requires i < |steps| && forall j :: 0 <= j < |steps| ==> steps[j].outcome.Succeeded?
    ensures RanAt(steps, i) <==> steps[i].condition.Absent? || AlwaysRuns(steps[i].condition)
  {
    NoFailureNoFlag(steps[..i]);
  }

  /** And the result is no error, and under each name the last capture among those steps, and no other name. */
  lemma SuccessReturnsCaptures(steps: seq<HookStep>, name: string)
    requires forall i :: 0 <= i < |steps| ==> steps[i].outcome.Succeeded?
    ensures Run(steps).firstError.None?
    ensures forall i: nat, value :: LastCapture(steps, i, name, value) ==>
              name in Run(steps).outputs && Run(steps).outputs[name] == value
    ensures (forall i: nat :: !CapturesSome(steps, i, name)) ==> name !in Run(steps).outputs
  {
    NoFailureNoFlag(steps);
    forall i: nat ensures CapturesSome(steps, i, name) == CapturesAt(steps, i, name) {
      if i < |steps| {
        RunsUnlessForbidden(steps, i);
      }
    }
    forall i: nat, value | LastCapture(steps, i, name, value)
      ensures name in Run(steps).outputs && Run(steps).outputs[name] == value
    {
      assert CapturesSome(steps, i, name);
      OutputIsLastCapture(steps, i, name);
    }
    if forall i: nat :: !CapturesSome(steps, i, name) {
      NoOtherOutput(steps, name);
    }
  }

  // ----- outputs

  /** Step `i` ran, succeeded and captured output under `name`. */
  predicate CapturesAt(steps: seq<HookStep>, i: nat, name: string) {
    RanAt(steps, i) && steps[i].outcome.Succeeded? && steps[i].outcome.output.Some? && steps[i].outcome.output.value.0 == name
  }

  /** Under a name stands what the last step that captured it wrote. */
  lemma {:induction false} OutputIsLastCapture(steps: seq<HookStep>, i: nat, name: string)
    requires CapturesAt(steps, i, name) && forall j: nat :: i < j ==> !CapturesAt(steps, j, name)
    ensures name in Run(steps).outputs && Run(steps).outputs[name] == steps[i].outcome.output.value.1
  {
    var last := |steps| - 1;
    if i < last {
      assert !CapturesAt(steps, last, name);
      forall j: nat | i < j ensures !CapturesAt(steps[..last], j, name) {
        assert !CapturesAt(steps, j, name);
        if j < last {
          PrefixSame(steps, last, j);
        }
      }
      PrefixSame(steps, last, i);
      OutputIsLastCapture(steps[..last], i, name);
    }
  }

  /** A name that no step captured is not there. */
  lemma {:induction false} NoOtherOutput(steps: seq<HookStep>, name: string)
    requires forall i: nat :: !CapturesAt(steps, i, name)
    ensures name !in Run(steps).outputs
  {
    if steps != [] {
      var last := |steps| - 1;
      assert !CapturesAt(steps, last, name);
      forall i: nat ensures !CapturesAt(steps[..last], i, name) {
        assert !CapturesAt(steps, i, name);
        if i < last {
          PrefixSame(steps, last, i);
        }
      }
      NoOtherOutput(steps[..last], name);
    }
  }

  // ----- the documented rule: only a step whose own condition called `failure()` handles a failure

  predicate OwnFlag(step: HookStep) {
    step.condition == Dynamic(Truthy(true))
  }

  function DocumentedStep(h: Hooks, step: HookStep): Hooks {
    if Runs(h, step) then Execute(h, OwnFlag(step), step.outcome) else h
  }

  function DocumentedRun(steps: seq<HookStep>): Hooks {
    if steps == [] then Start else DocumentedStep(DocumentedRun(steps[..|steps| - 1]), steps[|steps| - 1])
  }

  predicate SameResult(a: Hooks, b: Hooks) {
    a.hadFailure == b.hadFailure && a.firstError == b.firstError && a.outputs == b.outputs
  }

  lemma OneStepAgrees(h: Hooks, d: Hooks, step: HookStep)
    requires SameResult(h, d)
    ensures SameResult(Step(h, step), DocumentedStep(d, step)) <==>
              !(Runs(h, step) && step.outcome.Succeeded? && h.hadFailure && FlagAfter(h, step) && !OwnFlag(step))
  {
  }

  /** A recovery on a flag that is not the step's own. */
  predicate StaleAt(steps: seq<HookStep>, i: nat) {
    RecoversAt(steps, i) && !OwnFlag(steps[i])
  }

  predicate SetsFlag(step: HookStep) {
    step.condition.Dynamic? && step.condition.verdict.Truthy?
  }

  predicate PlainTrue(step: HookStep) {
    step.condition == Static(true) || step.condition == Dynamic(NotEvaluated)
  }

  /** Only a step with `if: true`, or a dynamic one that could not be evaluated, can recover that way. */
  lemma StaleNeedsPlainTrue(steps: seq<HookStep>, i: nat)
    requires StaleAt(steps, i)
    ensures PlainTrue(steps[i])
  {
  }

  // ----- when the promise is kept, told from the steps and the documented run alone

  /** Step `j` called `failure()`, did not handle a failure by the rule, and no truthy condition followed before step `k`. */
  predicate LeavesFlag(steps: seq<HookStep>, j: nat, k: nat) {
    && j < k <= |steps| && OwnFlag(steps[j])
    && !(DocumentedRun(steps[..j]).hadFailure && steps[j].outcome.Succeeded?)
    && forall i :: j < i < k ==> !SetsFlag(steps[i])
  }

  ghost predicate FlagLeft(steps: seq<HookStep>, k: nat) {
    exists j: nat :: LeavesFlag(steps, j, k)
  }

  /** Step `k` is a clean-up that succeeds while a failure stands, behind a handler that left its flag. */
  ghost predicate SwallowsAt(steps: seq<HookStep>, k: nat) {
    && k < |steps| && PlainTrue(steps[k]) && steps[k].outcome.Succeeded?
    && DocumentedRun(steps[..k]).hadFailure && FlagLeft(steps, k)
  }

  lemma FlagLeftStep(steps: seq<HookStep>, k: nat)
    requires k < |steps|
    ensures FlagLeft(steps, k + 1) <==>
              if SetsFlag(steps[k]) then
                OwnFlag(steps[k]) && !(DocumentedRun(steps[..k]).hadFailure && steps[k].outcome.Succeeded?)
              else FlagLeft(steps, k)
  {
    if FlagLeft(steps, k + 1) {
      var j: nat :| LeavesFlag(steps, j, k + 1);
      if j < k {
        assert !SetsFlag(steps[k]) && LeavesFlag(steps, j, k);
      }
    }
    if SetsFlag(steps[k]) {
      assert LeavesFlag(steps, k, k + 1) <==>
             OwnFlag(steps[k]) && !(DocumentedRun(steps[..k]).hadFailure && steps[k].outcome.Succeeded?);
    } else if FlagLeft(steps, k) {
      var j: nat :| LeavesFlag(steps, j, k);
      assert LeavesFlag(steps, j, k + 1);
    }
  }

  lemma PrefixStep(steps: seq<HookStep>, k: nat)
    requires k < |steps|
    ensures Run(steps[..k + 1]) == Step(Run(steps[..k]), steps[k])
    ensures DocumentedRun(steps[..k + 1]) == DocumentedStep(DocumentedRun(steps[..k]), steps[k])
  {
    assert steps[..k + 1][..k] == steps[..k];
  }

  /** Up to the first such step the loop agrees with the rule, and its flag is one some handler left. */
  lemma {:induction false} AgreesBefore(steps: seq<HookStep>, k: nat)
    requires k <= |steps| && forall i: nat :: i < k ==> !SwallowsAt(steps, i)
    ensures SameResult(Run(steps[..k]), DocumentedRun(steps[..k]))
    ensures Run(steps[..k]).failureChecked <==> FlagLeft(steps, k)
  {
    if k > 0 {
      AgreesBefore(steps, k - 1);
      PrefixStep(steps, k - 1);
      FlagLeftStep(steps, k - 1);
      assert !SwallowsAt(steps, k - 1);
      OneStepAgrees(Run(steps[..k - 1]), DocumentedRun(steps[..k - 1]), steps[k - 1]);
    }
  }

  lemma {:induction false} FirstSwallow(steps: seq<HookStep>, i: nat) returns (k: nat)
    requires SwallowsAt(steps, i)
    ensures SwallowsAt(steps, k) && forall j: nat :: j < k ==> !SwallowsAt(steps, j)
    decreases i
  {
    if j: nat :| j < i && SwallowsAt(steps, j) {
      k := FirstSwallow(steps, j);
    } else {
      k := i;
    }
  }

  /** The loop follows the documented rule at every prefix exactly when no clean-up step swallows a failure like that. */
  lemma DocumentedIffNoSwallow(steps: seq<HookStep>)
    ensures (forall k: nat :: k <= |steps| ==> SameResult(Run(steps[..k]), DocumentedRun(steps[..k])))
            <==> forall k: nat :: !SwallowsAt(steps, k)
  {
    if forall k: nat :: !SwallowsAt(steps, k) {
      forall k: nat | k <= |steps| ensures SameResult(Run(steps[..k]), DocumentedRun(steps[..k])) {
        AgreesBefore(steps, k);
      }
    } else {
      var i: nat :| SwallowsAt(steps, i);
      var k := FirstSwallow(steps, i);
      AgreesBefore(steps, k);
      PrefixStep(steps, k);
      OneStepAgrees(Run(steps[..k]), DocumentedRun(steps[..k]), steps[k]);
      assert !SameResult(Run(steps[..k + 1]), DocumentedRun(steps[..k + 1]));
    }
  }

  /** And one does: a failure handler that fails leaves its flag to the clean-up step behind it. */
  lemma CleanupSwallowsError()
    ensures var steps := [HookStep(Absent, Failed("step 1")),
                          HookStep(Dynamic(Truthy(true)), Failed("handler")),
                          HookStep(Static(true), Succeeded(None))];
            Run(steps).firstError == None && DocumentedRun(steps).firstError == Some("step 1")
  {
    var a, b, c := HookStep(Absent, Failed("step 1")), HookStep(Dynamic(Truthy(true)), Failed("handler")),
                   HookStep(Static(true), Succeeded(None));
    assert [a][..0] == [] && [a, b][..1] == [a] && [a, b, c][..2] == [a, b];
    assert Run([a]) == Hooks(true, Some("step 1"), false, map[]);
    assert DocumentedRun([a]) == Hooks(true, Some("step 1"), false, map[]);
    assert Run([a, b]) == Hooks(true, Some("step 1"), true, map[]);
    assert DocumentedRun([a, b]) == Hooks(true, Some("step 1"), true, map[]);
  }
}
