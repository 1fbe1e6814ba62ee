/**
 * Specification of `repeat_steps_until_success`: a multi-pass interpreter
 * over a list of step records. Each pass dispatches every step in order;
 * the class method WebActions.WebActions.RepeatStepsUntilSuccess is proved
 * equal to Orchestrate below.
 *
 * The effects of the dispatched calls are oracles: `fault(pass, index, wait)`
 * is the exception a step raises, if any, and `validation(pass, index, wait)`
 * is what a `validate_text` step (run with `no_of_attempts=1`) returns.
 */
module Orchestrator {
  import opened Wrappers
  import opened Text
  import opened Resolution

  /** The `action` key of a step record; Unrecognised stands for any other string, which dispatches nothing. */
  datatype StepAction =
    | SetText | SetTextEnter | Click | WaitUntilElementExists | WaitUntilElementTextChanges
    | WaitUntilTextMatches | SelectElement | DeselectElement | SwitchToFrame | GetText | GetUrl
    | ValidateText | Unrecognised

  /**
   * A step record; a None field is a key the dictionary does not have.
   * `name` is `step.get("name", step.get("element"))`: None when the step
   * has neither key, or when the key it has holds None.
   */
  datatype Step = Step(
    action: StepAction,
    name: Option<string>,
    maxWaitTime: Option<int>,
    noOfAttempts: Option<int>,
    stopTexts: Option<seq<string>>)

  /** What a `validate_text` step returned: `Data(data, status)`. */
  datatype Reading = Reading(data: string, status: bool)

  datatype StepEnv = StepEnv(fault: (nat, nat, int) -> Option<WebError>, validation: (nat, nat, int) -> Reading)

  /**
   * The loop variables: `max_wait_time`, `no_of_attempts`, `data` and
   * `break_flag`, and (for stating properties) the `max_wait_time` each
   * dispatched step received, in dispatch order.
   */
  datatype PassState = PassState(wait: int, attempts: int, data: Option<string>, breakFlag: bool, waits: seq<int>)

  /** `raise_exception` and `return_data` of the call. */
  datatype Policy = Policy(raiseOnFailure: bool, returnData: bool)

  /** A returned value: `True`/`False`, or a `Data` record when `return_data` is set. */
  datatype StepsResult = Flag(ok: bool) | Report(data: Option<string>, status: bool)

  /** How the call ended; OutOfFuel when the pass bound of the model ran out first. */
  datatype RunResult = Finished(value: StepsResult) | Failed(error: WebError) | OutOfFuel

  /** The end of the call and the number of passes it started. */
  datatype Orchestration = Orchestration(result: RunResult, passes: nat)

  /** Dispatch step `i` of pass `p`: adopt its overrides, then run it. */
  function Dispatch(s: Step, p: nat, i: nat, st: PassState, env: StepEnv): Result<PassState, WebError> {
    var wait := s.maxWaitTime.GetOr(st.wait);
    var attempts := s.noOfAttempts.GetOr(st.attempts);
    var st1 := st.(wait := wait, attempts := attempts, waits := st.waits + [wait]);
    match env.fault(p, i, wait)
    case Some(e) => Err(e)
    case None =>
      if s.action == ValidateText then
        var v := env.validation(p, i, wait);
        Ok(st1.(data := Some(v.data), breakFlag := if v.status then true else st1.breakFlag))
      else Ok(st1)
  }

  /** The rest of pass `p` from step `i` on. */
  function PassFrom(steps: seq<Step>, p: nat, i: nat, st: PassState, env: StepEnv): Result<PassState, WebError>
    requires i <= |steps|
    decreases |steps| - i
  {
    if i == |steps| then Ok(st)
    else match Dispatch(steps[i], p, i, st, env)
      case Err(e) => Err(e)
      case Ok(st1) => PassFrom(steps, p, i + 1, st1, env)
  }

  /**
   * `any(data in stop_text for stop_text in steps[-1].get("stop_texts", []))`:
   * a substring test of the captured data against each stop text of the
   * final step; `None in "..."` raises TypeError.
   */
  function StopHit(data: Option<string>, stopTexts: Option<seq<string>>): Result<bool, WebError> {
    match stopTexts
    case None => Ok(false)
    case Some(ts) =>
      if |ts| == 0 then Ok(false)
      else if data.None? then Err(TypeMismatch)
      else Ok(exists t :: t in ts && IsSubstring(data.value, t))
  }

  /** Every step has a name, so `','.join(all_names)` succeeds. */
  predicate AllNamed(steps: seq<Step>) {
    forall i :: 0 <= i < |steps| ==> steps[i].name.Some?
  }

  /**
   * What the call does once the loop is left: return or raise according to
   * the policy. On failure the message joins the step names first, which
   * raises TypeError when some name is None (`named` is false).
   */
  function Conclude(success: bool, data: Option<string>, policy: Policy, named: bool): RunResult {
    if !success && !named then Failed(TypeMismatch)
    else if !success && policy.raiseOnFailure then Failed(StepsIncomplete)
    else if policy.returnData then Finished(Report(data, success))
    else Finished(Flag(success))
  }

  /** The outer loop from pass `p`, with at most `fuel` more passes. */
  function RunFrom(steps: seq<Step>, p: nat, st: PassState, env: StepEnv, policy: Policy, fuel: nat): Orchestration
    decreases fuel
  {
    if st.attempts <= 0 then Orchestration(Conclude(st.breakFlag, st.data, policy, AllNamed(steps)), p)
    else if fuel == 0 then Orchestration(OutOfFuel, p)
    else match PassFrom(steps, p, 0, st, env)
      case Err(e) => Orchestration(Failed(e), p + 1)
      case Ok(st1) =>
        var st2 := st1.(attempts := st1.attempts - 1);
        if st2.breakFlag then Orchestration(Conclude(true, st2.data, policy, AllNamed(steps)), p + 1)
        else if |steps| == 0 then Orchestration(Failed(IndexOutOfRange), p + 1)
        else match StopHit(st2.data, steps[|steps| - 1].stopTexts)
          case Err(e) => Orchestration(Failed(e), p + 1)
          case Ok(true) => Orchestration(Conclude(true, st2.data, policy, AllNamed(steps)), p + 1)
          case Ok(false) => RunFrom(steps, p + 1, st2, env, policy, fuel - 1)
  }

  function Initial(maxWaitTime: int, noOfAttempts: int): PassState {
    PassState(maxWaitTime, noOfAttempts, None, false, [])
  }

  /** A whole call, bounded by `fuel` passes. */
  function Orchestrate(steps: seq<Step>, maxWaitTime: int, noOfAttempts: int, env: StepEnv, policy: Policy, fuel: nat): Orchestration {
    RunFrom(steps, 0, Initial(maxWaitTime, noOfAttempts), env, policy, fuel)
  }

  // ------------------------------------------------------------------ overrides

  function WaitOverrides(steps: seq<Step>): (o: seq<Option<int>>)
    ensures |o| == |steps| && forall i :: 0 <= i < |steps| ==> o[i] == steps[i].maxWaitTime
  {
    seq(|steps|, i requires 0 <= i < |steps| => steps[i].maxWaitTime)
  }

  function AttemptOverrides(steps: seq<Step>): (o: seq<Option<int>>)
    ensures |o| == |steps| && forall i :: 0 <= i < |steps| ==> o[i] == steps[i].noOfAttempts
  {
    seq(|steps|, i requires 0 <= i < |steps| => steps[i].noOfAttempts)
  }

  /** The latest override in `o`, or `carried` when there is none: the reference definition. */
  function LastOverride(o: seq<Option<int>>, carried: int): int {
    if |o| == 0 then carried
    else match o[|o| - 1]
      case Some(v) => v
      case None => LastOverride(o[..|o| - 1], carried)
  }

  /** Adopting overrides one at a time from the front ends at the latest one. */
  lemma {:induction false} LastOverrideFront(o: seq<Option<int>>, carried: int)
    requires |o| > 0
    ensures LastOverride(o, carried) == LastOverride(o[1..], o[0].GetOr(carried))
    decreases |o|
  {
    if |o| > 1 && o[|o| - 1].None? {
      LastOverrideFront(o[..|o| - 1], carried);
      assert o[..|o| - 1][1..] == o[1..][..|o[1..]| - 1];
    }
  }

  lemma LastOverrideExtend(o: seq<Option<int>>, x: Option<int>, carried: int)
    ensures LastOverride(o + [x], carried) == x.GetOr(LastOverride(o, carried))
  {
    assert (o + [x])[..|o|] == o;
  }

  /** When no step overrides, the carried value is kept. */
  lemma {:induction false} LastOverrideNone(o: seq<Option<int>>, carried: int)
    requires forall i :: 0 <= i < |o| ==> o[i].None?
    ensures LastOverride(o, carried) == carried
    decreases |o|
  {
    if |o| > 0 {
      LastOverrideNone(o[..|o| - 1], carried);
    }
  }

  /** When some step overrides, the carried value does not matter. */
  lemma {:induction false} LastOverrideIgnoresCarried(o: seq<Option<int>>, c1: int, c2: int)
    requires exists i :: 0 <= i < |o| && o[i].Some?
    ensures LastOverride(o, c1) == LastOverride(o, c2)
    decreases |o|
  {
    if o[|o| - 1].None? {
      var i :| 0 <= i < |o| && o[i].Some?;
      assert o[..|o| - 1][i] == o[i];
      LastOverrideIgnoresCarried(o[..|o| - 1], c1, c2);
    }
  }

  /** The wait each step of a pass receives, adopting overrides from the front. */
  function Waits(o: seq<Option<int>>, carried: int): (ws: seq<int>)
    ensures |ws| == |o|
  {
    if |o| == 0 then [] else [o[0].GetOr(carried)] + Waits(o[1..], o[0].GetOr(carried))
  }

  /** Each of those waits is the latest override up to and including that step. */
  lemma {:induction false} WaitsAreLatest(o: seq<Option<int>>, carried: int, n: nat)
    requires n < |o|
    ensures Waits(o, carried)[n] == LastOverride(o[..n + 1], carried)
    decreases n
  {
    LastOverrideFront(o[..n + 1], carried);
    assert o[..n + 1][1..] == o[1..][..n];
    if n > 0 {
      WaitsAreLatest(o[1..], o[0].GetOr(carried), n - 1);
    } else {
      assert o[1..][..0] == [];
    }
  }

  /** One dispatch adopts the step's overrides and records the wait it ran with. */
  lemma DispatchOverrides(s: Step, p: nat, i: nat, st: PassState, env: StepEnv)
    requires Dispatch(s, p, i, st, env).Ok?
    ensures var st1 := Dispatch(s, p, i, st, env).value;
      && st1.wait == s.maxWaitTime.GetOr(st.wait)
      && st1.attempts == s.noOfAttempts.GetOr(st.attempts)
      && st1.waits == st.waits + [st1.wait]
  {
  }

  lemma {:induction false} PassFromAttempts(steps: seq<Step>, p: nat, i: nat, st: PassState, env: StepEnv)
    requires i <= |steps|
    requires PassFrom(steps, p, i, st, env).Ok?
    ensures PassFrom(steps, p, i, st, env).value.attempts == LastOverride(AttemptOverrides(steps)[i..], st.attempts)
    decreases |steps| - i
  {
    var ao := AttemptOverrides(steps)[i..];
    if i < |steps| {
      var st1 := Dispatch(steps[i], p, i, st, env).value;
      var next := i + 1;
      DispatchOverrides(steps[i], p, i, st, env);
      assert ao[0] == steps[i].noOfAttempts && ao[1..] == AttemptOverrides(steps)[next..];
      PassFromAttempts(steps, p, next, st1, env);
      LastOverrideFront(ao, st.attempts);
    } else {
      assert ao == [];
    }
  }

  lemma {:induction false} PassFromWait(steps: seq<Step>, p: nat, i: nat, st: PassState, env: StepEnv)
    requires i <= |steps|
    requires PassFrom(steps, p, i, st, env).Ok?
    ensures PassFrom(steps, p, i, st, env).value.wait == LastOverride(WaitOverrides(steps)[i..], st.wait)
    ensures PassFrom(steps, p, i, st, env).value.waits == st.waits + Waits(WaitOverrides(steps)[i..], st.wait)
    decreases |steps| - i
  {
    var wo := WaitOverrides(steps)[i..];
    if i < |steps| {
      var st1 := Dispatch(steps[i], p, i, st, env).value;
      var next := i + 1;
      DispatchOverrides(steps[i], p, i, st, env);
      assert wo[0] == steps[i].maxWaitTime && wo[1..] == WaitOverrides(steps)[next..];
      PassFromWait(steps, p, next, st1, env);
      LastOverrideFront(wo, st.wait);
      assert Waits(wo, st.wait) == [st1.wait] + Waits(wo[1..], st1.wait);
    } else {
      assert wo == [];
    }
  }

  /** The rest of a pass leaves both counters at the latest override and records the wait of each step. */
  lemma PassFromOverrides(steps: seq<Step>, p: nat, i: nat, st: PassState, env: StepEnv)
    requires i <= |steps|
    requires PassFrom(steps, p, i, st, env).Ok?
    ensures var st' := PassFrom(steps, p, i, st, env).value;
      && st'.attempts == LastOverride(AttemptOverrides(steps)[i..], st.attempts)
      && st'.wait == LastOverride(WaitOverrides(steps)[i..], st.wait)
      && st'.waits == st.waits + Waits(WaitOverrides(steps)[i..], st.wait)
  {
    PassFromAttempts(steps, p, i, st, env);
    PassFromWait(steps, p, i, st, env);
  }

  /**
   * Within a completed pass, step n is dispatched with the latest
   * `max_wait_time` override among steps 0..n, or the value carried in from
   * the previous pass (the call's argument on the first); the pass leaves
   * `max_wait_time` at the latest override of all steps, for the next pass,
   * and `no_of_attempts` at the latest `no_of_attempts` override, whatever
   * it was before. Every step is dispatched once.
   */
  lemma PassOverrides(steps: seq<Step>, p: nat, st: PassState, env: StepEnv)
    requires PassFrom(steps, p, 0, st, env).Ok?
    ensures var st' := PassFrom(steps, p, 0, st, env).value;
      && st'.attempts == LastOverride(AttemptOverrides(steps), st.attempts)
      && st'.wait == LastOverride(WaitOverrides(steps), st.wait)
      && st'.waits == st.waits + Waits(WaitOverrides(steps), st.wait)
  {
    PassFromOverrides(steps, p, 0, st, env);
    assert AttemptOverrides(steps)[0..] == AttemptOverrides(steps);
    assert WaitOverrides(steps)[0..] == WaitOverrides(steps);
  }

  /** The wait the n-th step of a completed pass received, in the caller's terms. */
  lemma DispatchedWait(steps: seq<Step>, p: nat, st: PassState, env: StepEnv, n: nat)
    requires PassFrom(steps, p, 0, st, env).Ok?
    requires n < |steps|
    ensures |PassFrom(steps, p, 0, st, env).value.waits| == |st.waits| + |steps|
    ensures PassFrom(steps, p, 0, st, env).value.waits[|st.waits| + n] == LastOverride(WaitOverrides(steps)[..n + 1], st.wait)
  {
    PassOverrides(steps, p, st, env);
    WaitsAreLatest(WaitOverrides(steps), st.wait, n);
  }

  // ---------------------------------------------------------------- passes

  /** No step overrides `no_of_attempts`. */
  predicate NoAttemptOverrides(steps: seq<Step>) {
    forall i :: 0 <= i < |steps| ==> steps[i].noOfAttempts.None?
  }

  lemma {:induction false} RunFromBoundedWithoutOverrides(steps: seq<Step>, p: nat, st: PassState, env: StepEnv, policy: Policy, fuel: nat)
    requires NoAttemptOverrides(steps)
    requires fuel >= st.attempts
    ensures var r := RunFrom(steps, p, st, env, policy, fuel);
      r.result != OutOfFuel && p <= r.passes <= p + (if st.attempts > 0 then st.attempts else 0)
    decreases fuel
  {
    if st.attempts > 0 {
      match PassFrom(steps, p, 0, st, env)
      case Err(_) =>
      case Ok(st1) =>
        PassOverrides(steps, p, st, env);
        LastOverrideNone(AttemptOverrides(steps), st.attempts);
        var st2 := st1.(attempts := st1.attempts - 1);
        if !st2.breakFlag && |steps| > 0 && StopHit(st2.data, steps[|steps| - 1].stopTexts) == Ok(false) {
          RunFromBoundedWithoutOverrides(steps, p + 1, st2, env, policy, fuel - 1);
        }
    }
  }

  /**
   * Without per-step `no_of_attempts` overrides the call always ends within
   * `no_of_attempts` passes, so a fuel bound of that many passes never runs out.
   */
  lemma AtMostAttemptsPasses(steps: seq<Step>, maxWaitTime: int, noOfAttempts: int, env: StepEnv, policy: Policy, fuel: nat)
    requires NoAttemptOverrides(steps)
    requires fuel >= noOfAttempts
    ensures var r := Orchestrate(steps, maxWaitTime, noOfAttempts, env, policy, fuel);
      r.result != OutOfFuel && r.passes <= if noOfAttempts > 0 then noOfAttempts else 0
  {
    RunFromBoundedWithoutOverrides(steps, 0, Initial(maxWaitTime, noOfAttempts), env, policy, fuel);
  }

  /** Pass `p` raises nothing and no validation succeeds in it. */
  ghost predicate QuietPass(env: StepEnv, p: nat) {
    forall i: nat, w: int :: env.fault(p, i, w).None? && !env.validation(p, i, w).status
  }

  lemma {:induction false} QuietPassFrom(steps: seq<Step>, p: nat, i: nat, st: PassState, env: StepEnv)
    requires i <= |steps|
    requires QuietPass(env, p)
    ensures PassFrom(steps, p, i, st, env).Ok?
    ensures PassFrom(steps, p, i, st, env).Ok? ==> PassFrom(steps, p, i, st, env).value.breakFlag == st.breakFlag
    decreases |steps| - i
  {
    if i < |steps| {
      var wait := steps[i].maxWaitTime.GetOr(st.wait);
      assert env.fault(p, i, wait).None? && !env.validation(p, i, wait).status;
      QuietPassFrom(steps, p, i + 1, Dispatch(steps[i], p, i, st, env).value, env);
    }
  }

  /** The final step's stop-text check can never fire. */
  predicate NoFinalStopTexts(steps: seq<Step>) {
    |steps| > 0 && (steps[|steps| - 1].stopTexts.None? || steps[|steps| - 1].stopTexts == Some([]))
  }

  lemma {:induction false} RunFromNeverEnds(steps: seq<Step>, p: nat, st: PassState, env: StepEnv, policy: Policy, fuel: nat)
    requires NoFinalStopTexts(steps)
    requires exists i :: 0 <= i < |steps| && steps[i].noOfAttempts.Some?
    requires LastOverride(AttemptOverrides(steps), 0) >= 2
    requires forall q: nat :: QuietPass(env, q)
    requires st.attempts > 0 && !st.breakFlag
    ensures RunFrom(steps, p, st, env, policy, fuel).result == OutOfFuel
    decreases fuel
  {
    if fuel > 0 {
      assert QuietPass(env, p);
      QuietPassFrom(steps, p, 0, st, env);
      PassOverrides(steps, p, st, env);
      assert AttemptOverrides(steps)[0] == steps[0].noOfAttempts;
      LastOverrideIgnoresCarried(AttemptOverrides(steps), st.attempts, 0);
      var st1 := PassFrom(steps, p, 0, st, env).value;
      RunFromNeverEnds(steps, p + 1, st1.(attempts := st1.attempts - 1), env, policy, fuel - 1);
    }
  }

  /**
   * A per-step `no_of_attempts` override resets the shared counter on every
   * pass: when the latest one is 2 or more and nothing succeeds, raises or
   * hits a stop text, the loop never ends, whatever pass bound is given.
   */
  lemma OverrideKeepsLooping(steps: seq<Step>, maxWaitTime: int, noOfAttempts: int, env: StepEnv, policy: Policy, fuel: nat)
    requires NoFinalStopTexts(steps)
    requires exists i :: 0 <= i < |steps| && steps[i].noOfAttempts.Some?
    requires LastOverride(AttemptOverrides(steps), 0) >= 2
    requires forall q: nat :: QuietPass(env, q)
    requires noOfAttempts > 0
    ensures Orchestrate(steps, maxWaitTime, noOfAttempts, env, policy, fuel).result == OutOfFuel
  {
    RunFromNeverEnds(steps, 0, Initial(maxWaitTime, noOfAttempts), env, policy, fuel);
  }

  // ------------------------------------------------------------- results

  /** The status a returned value reports. */
  function StatusOf(v: StepsResult): bool {
    match v
    case Flag(ok) => ok
    case Report(_, status) => status
  }

  lemma {:induction false} RunFromPolicy(steps: seq<Step>, p: nat, st: PassState, env: StepEnv, policy: Policy, fuel: nat)
    ensures var r := RunFrom(steps, p, st, env, policy, fuel).result;
      && (r.Finished? ==> (r.value.Report? <==> policy.returnData))
      && (r.Finished? && !StatusOf(r.value) ==> !policy.raiseOnFailure && AllNamed(steps))
    decreases fuel
  {
    if st.attempts > 0 && fuel > 0 {
      match PassFrom(steps, p, 0, st, env)
      case Err(_) =>
      case Ok(st1) =>
        var st2 := st1.(attempts := st1.attempts - 1);
        if !st2.breakFlag && |steps| > 0 && StopHit(st2.data, steps[|steps| - 1].stopTexts) == Ok(false) {
          RunFromPolicy(steps, p + 1, st2, env, policy, fuel - 1);
        }
    }
  }

  /**
   * The result honours the caller's policy: a value is a `Data` record exactly
   * when `return_data` is set, and a failure is returned (False, or a record
   * with status False) only when `raise_exception` is off and every step has
   * a name for the failure message.
   */
  lemma ResultHonoursPolicy(steps: seq<Step>, maxWaitTime: int, noOfAttempts: int, env: StepEnv, policy: Policy, fuel: nat)
    ensures var r := Orchestrate(steps, maxWaitTime, noOfAttempts, env, policy, fuel).result;
      && (r.Finished? ==> (r.value.Report? <==> policy.returnData))
      && (r.Finished? && !StatusOf(r.value) ==> !policy.raiseOnFailure && AllNamed(steps))
  {
    RunFromPolicy(steps, 0, Initial(maxWaitTime, noOfAttempts), env, policy, fuel);
  }

  /**
   * Running out of attempts without success raises TypeError when some step
   * has no name (building the failure message fails first), otherwise raises
   * when `raise_exception` is set, and otherwise returns `Data(data, False)`
   * or `False`.
   */
  lemma ExhaustedAttempts(steps: seq<Step>, p: nat, st: PassState, env: StepEnv, policy: Policy, fuel: nat)
    requires st.attempts <= 0 && !st.breakFlag
    ensures RunFrom(steps, p, st, env, policy, fuel).result ==
      if !AllNamed(steps) then Failed(TypeMismatch)
      else if policy.raiseOnFailure then Failed(StepsIncomplete)
      else if policy.returnData then Finished(Report(st.data, false))
      else Finished(Flag(false))
  {
  }

  /**
   * A step that raises fails the whole pass, whatever the steps before it did:
   * the exception leaves the pass at step j.
   */
  lemma {:induction false} SuccessDoesNotStopPass(steps: seq<Step>, p: nat, k: nat, st: PassState, env: StepEnv, j: nat, e: WebError)
    requires k <= j < |steps|
    requires forall w :: env.fault(p, j, w) == Some(e)
    requires forall n: nat, w :: k <= n < j ==> env.fault(p, n, w).None?
    ensures PassFrom(steps, p, k, st, env) == Err(e)
    decreases j - k
  {
    var wait := steps[k].maxWaitTime.GetOr(st.wait);
    if k < j {
      assert env.fault(p, k, wait).None?;
      SuccessDoesNotStopPass(steps, p, k + 1, Dispatch(steps[k], p, k, st, env).value, env, j, e);
    } else {
      assert env.fault(p, j, wait) == Some(e);
    }
  }

  /**
   * A successful validation only sets `break_flag`: the rest of the pass is
   * still dispatched, so a later step that raises makes the whole call raise.
   */
  lemma LaterStepStillRuns(steps: seq<Step>, p: nat, st: PassState, env: StepEnv, policy: Policy, fuel: nat, i: nat, j: nat, e: WebError)
    requires i < j < |steps|
    requires steps[i].action == ValidateText
    requires forall w :: env.validation(p, i, w).status
    requires forall w :: env.fault(p, j, w) == Some(e)
    requires forall n: nat, w :: n < j ==> env.fault(p, n, w).None?
    requires st.attempts > 0 && fuel > 0
    ensures RunFrom(steps, p, st, env, policy, fuel) == Orchestration(Failed(e), p + 1)
  {
    SuccessDoesNotStopPass(steps, p, 0, st, env, j, e);
  }

  /** Pass `p` raises nothing, whatever step and wait. */
  ghost predicate RaiseFree(env: StepEnv, p: nat) {
    forall i: nat, w: int :: env.fault(p, i, w).None?
  }

  /** The rest of a raise-free pass completes, and a set `break_flag` stays set. */
  lemma {:induction false} QuietAfter(steps: seq<Step>, p: nat, i: nat, st: PassState, env: StepEnv)
    requires i <= |steps|
    requires RaiseFree(env, p)
    ensures PassFrom(steps, p, i, st, env).Ok?
    ensures st.breakFlag ==> PassFrom(steps, p, i, st, env).value.breakFlag
    decreases |steps| - i
  {
    if i < |steps| {
      var wait := steps[i].maxWaitTime.GetOr(st.wait);
      assert env.fault(p, i, wait).None?;
      QuietAfter(steps, p, i + 1, Dispatch(steps[i], p, i, st, env).value, env);
    }
  }

  /** A successful `validate_text` step at index i of a raise-free pass leaves `break_flag` set at the end of the pass. */
  lemma {:induction false} BreakSticks(steps: seq<Step>, p: nat, k: nat, i: nat, st: PassState, env: StepEnv)
    requires k <= i < |steps|
    requires steps[i].action == ValidateText
    requires forall w :: env.validation(p, i, w).status
    requires RaiseFree(env, p)
    ensures PassFrom(steps, p, k, st, env).Ok? && PassFrom(steps, p, k, st, env).value.breakFlag
    decreases i - k
  {
    var wait := steps[k].maxWaitTime.GetOr(st.wait);
    assert env.fault(p, k, wait).None?;
    var st1 := Dispatch(steps[k], p, k, st, env).value;
    if k < i {
      BreakSticks(steps, p, k + 1, i, st1, env);
    } else {
      assert env.validation(p, i, wait).status;
      assert st1.breakFlag;
      QuietAfter(steps, p, k + 1, st1, env);
    }
  }

  /**
   * The main success path: a pass in which nothing raises and some
   * `validate_text` step succeeds ends the call after that pass with status
   * True, returning the data captured in the pass when `return_data` is set.
   */
  lemma ValidationSuccessEndsCall(steps: seq<Step>, p: nat, st: PassState, env: StepEnv, policy: Policy, fuel: nat, i: nat)
    requires i < |steps| && steps[i].action == ValidateText
    requires forall w :: env.validation(p, i, w).status
    requires RaiseFree(env, p)
    requires st.attempts > 0 && fuel > 0
    ensures PassFrom(steps, p, 0, st, env).Ok?
    ensures var r := RunFrom(steps, p, st, env, policy, fuel);
      && r.passes == p + 1 && r.result.Finished? && StatusOf(r.result.value)
      && (policy.returnData ==> r.result.value == Report(PassFrom(steps, p, 0, st, env).value.data, true))
  {
    BreakSticks(steps, p, 0, i, st, env);
  }

  /** Steps k.. of a completed pass dispatch no `validate_text`, so `data` is carried through. */
  lemma {:induction false} DataCarried(steps: seq<Step>, p: nat, k: nat, st: PassState, env: StepEnv)
    requires k <= |steps|
    requires PassFrom(steps, p, k, st, env).Ok?
    requires forall n :: k <= n < |steps| ==> steps[n].action != ValidateText
    ensures PassFrom(steps, p, k, st, env).value.data == st.data
    decreases |steps| - k
  {
    if k < |steps| {
      DataCarried(steps, p, k + 1, Dispatch(steps[k], p, k, st, env).value, env);
    }
  }

  /** From step k on, the data left by a completed pass is the reading of the last `validate_text` step j, taken with the wait recorded for it. */
  lemma {:induction false} DataFromLastValidation(steps: seq<Step>, p: nat, k: nat, j: nat, st: PassState, env: StepEnv)
    requires k <= j < |steps|
    requires steps[j].action == ValidateText
    requires forall n :: j < n < |steps| ==> steps[n].action != ValidateText
    requires PassFrom(steps, p, k, st, env).Ok?
    ensures var st' := PassFrom(steps, p, k, st, env).value;
      |st.waits| + j - k < |st'.waits| && st'.data == Some(env.validation(p, j, st'.waits[|st.waits| + j - k]).data)
    decreases j - k
  {
    var st1 := Dispatch(steps[k], p, k, st, env).value;
    DispatchOverrides(steps[k], p, k, st, env);
    PassFromWait(steps, p, k + 1, st1, env);
    if k < j {
      DataFromLastValidation(steps, p, k + 1, j, st1, env);
    } else {
      DataCarried(steps, p, k + 1, st1, env);
      assert st1.waits[|st.waits|] == st1.wait;
    }
  }

  /**
   * The data a completed pass leaves in the loop is the reading of its last
   * `validate_text` step, run with the latest `max_wait_time` override up to
   * it.
   */
  lemma PassDataIsLastValidation(steps: seq<Step>, p: nat, st: PassState, env: StepEnv, j: nat)
    requires PassFrom(steps, p, 0, st, env).Ok?
    requires j < |steps| && steps[j].action == ValidateText
    requires forall n :: j < n < |steps| ==> steps[n].action != ValidateText
    ensures PassFrom(steps, p, 0, st, env).value.data
      == Some(env.validation(p, j, LastOverride(WaitOverrides(steps)[..j + 1], st.wait)).data)
  {
    DataFromLastValidation(steps, p, 0, j, st, env);
    DispatchedWait(steps, p, st, env, j);
  }

  /** A pass without a `validate_text` step keeps the data it started with. */
  lemma NoValidationKeepsData(steps: seq<Step>, p: nat, st: PassState, env: StepEnv)
    requires PassFrom(steps, p, 0, st, env).Ok?
    requires forall n :: 0 <= n < |steps| ==> steps[n].action != ValidateText
    ensures PassFrom(steps, p, 0, st, env).value.data == st.data
  {
    DataCarried(steps, p, 0, st, env);
  }

  /**
   * After a pass without a successful validation, captured data contained in
   * any stop text of the final step ends the call as a success (status True),
   * even though validation failed.
   */
  lemma StopTextEndsAsSuccess(steps: seq<Step>, p: nat, st: PassState, env: StepEnv, policy: Policy, fuel: nat, d: string, t: string)
    requires st.attempts > 0 && fuel > 0
    requires PassFrom(steps, p, 0, st, env).Ok?
    requires !PassFrom(steps, p, 0, st, env).value.breakFlag
    requires PassFrom(steps, p, 0, st, env).value.data == Some(d)
    requires |steps| > 0 && steps[|steps| - 1].stopTexts.Some?
    requires t in steps[|steps| - 1].stopTexts.value && IsSubstring(d, t)
    ensures var r := RunFrom(steps, p, st, env, policy, fuel);
      r.passes == p + 1 && r.result.Finished? && StatusOf(r.result.value)
      && (policy.returnData ==> r.result.value == Report(Some(d), true))
  {
  }

  /** An empty step list makes `steps[-1]` raise IndexError after the first pass. */
  lemma EmptyStepsRaise(maxWaitTime: int, noOfAttempts: int, env: StepEnv, policy: Policy, fuel: nat)
    requires noOfAttempts > 0 && fuel > 0
    ensures Orchestrate([], maxWaitTime, noOfAttempts, env, policy, fuel) == Orchestration(Failed(IndexOutOfRange), 1)
  {
  }

  // ------------------------------------------------------------- scenarios

  /** [SET_TEXT("q"), CLICK("submit"), VALIDATE_TEXT("status", stop_texts=["error"])] with no overrides. */
  function ScenarioSteps(): seq<Step> {
    [ Step(SetText, Some("q"), None, None, None),
      Step(Click, Some("submit"), None, None, None),
      Step(ValidateText, Some("status"), None, None, Some(["error"])) ]
  }

  /** A page on which nothing raises and validation always reads `seen`. */
  function SteadyPage(seen: string, status: bool): StepEnv {
    StepEnv((p: nat, i: nat, w: int) => None, (p: nat, i: nat, w: int) => Reading(seen, status))
  }

  /** Reading "done" on the first pass succeeds at once, with data "done", leaving two attempts unused. */
  lemma ScenarioDone(fuel: nat)
    requires fuel > 0
    ensures Orchestrate(ScenarioSteps(), 300, 3, SteadyPage("done", true), Policy(true, true), fuel)
      == Orchestration(Finished(Report(Some("done"), true)), 1)
  {
  }

  /**
   * One `get_url` step with neither "name" nor "element", one attempt, and
   * `raise_exception` off: the failure message cannot be built, so the call
   * raises TypeError instead of returning False.
   */
  lemma ScenarioUnnamedStep(fuel: nat)
    requires fuel > 0
    ensures Orchestrate([Step(GetUrl, None, None, None, None)], 300, 1, SteadyPage("", false), Policy(false, false), fuel)
      == Orchestration(Failed(TypeMismatch), 1)
  {
    var steps := [Step(GetUrl, None, None, None, None)];
    var env := SteadyPage("", false);
    assert steps[0].name.None?;
    var st1 := PassFrom(steps, 0, 0, Initial(300, 1), env).value;
    assert st1.attempts == 1 && !st1.breakFlag;
    ExhaustedAttempts(steps, 1, st1.(attempts := 0), env, Policy(false, false), fuel - 1);
  }

  /**
   * Reading the stop text "error" halts after the first pass with data
   * "error", and the post-pass stop-text check reports it with status True.
   */
  lemma ScenarioStopText(fuel: nat)
    requires fuel > 0
    ensures Orchestrate(ScenarioSteps(), 300, 3, SteadyPage("error", false), Policy(true, true), fuel)
      == Orchestration(Finished(Report(Some("error"), true)), 1)
  {
    var st1 := PassFrom(ScenarioSteps(), 0, 0, Initial(300, 3), SteadyPage("error", false)).value;
    assert st1.data == Some("error");
    SliceIsSubstring("error", 0, 5);
    assert "error"[0..5] == "error";
    StopTextEndsAsSuccess(ScenarioSteps(), 0, Initial(300, 3), SteadyPage("error", false), Policy(true, true), fuel, "error", "error");
  }
}
