/**
 * The WebActions object: the instance state the core updates
 * (`raise_exception`, `driver`, `element`) and the methods whose loops and
 * branches decide what happens. Each loop is proved equal to the recursive
 * specification of the module that states its properties.
 */
module WebActions {
  import opened Wrappers
  import opened Text
  import opened TimeBudget
  import opened Resolution
  import opened Selection
  import opened Polling
  import opened Orchestrator

  /** How one click attempt ends: clicked, one of the two transient faults, the wait timing out, or any other exception. */
  datatype ClickFault = ClickOk | Intercepted | Stale | WaitTimeout | OtherFault

  /**
   * Which way `click` returned: after a click, or after giving up once time ran
   * out or the wait timed out. The source returns None on both paths; the tag
   * records which one was taken.
   */
  datatype ClickEnd = Clicked | GaveUp

  /** ElementClickInterceptedException and StaleElementReferenceException are retried. */
  predicate Transient(f: ClickFault) {
    f == Intercepted || f == Stale
  }

  /**
   * The clock, in ticks since the start of `click`, before attempt `k`: each
   * earlier attempt was a transient failure that took `cost(j)` ticks and was
   * followed by the 250 ms pause.
   */
  function Elapsed(cost: nat -> nat, k: nat): (t: nat)
    ensures t >= k
  {
    if k == 0 then 0 else Elapsed(cost, k - 1) + cost(k - 1) + PollInterval
  }

  /** The clock only moves forward from one attempt to the next. */
  lemma {:induction false} ElapsedMonotone(cost: nat -> nat, j: nat, k: nat)
    requires j <= k
    ensures Elapsed(cost, j) <= Elapsed(cost, k)
    decreases k
  {
    if j < k {
      ElapsedMonotone(cost, j, k - 1);
    }
  }

  /**
   * What `_perform_action` leaves in `self.element`: the resolved element, or
   * the old one when the resolution raised, since it swallows every exception.
   */
  function ActionElement(timeout: int, polled: Option<Element>, raiseFlag: bool, element: Option<Element>): Option<Element> {
    match Resolve(timeout, polled, raiseFlag)
    case Err(_) => element
    case Ok(found) => found
  }

  /**
   * The `any(data in stop_text ...)` test after a pass: the first stop text
   * that contains the data ends the scan; with no data the first comparison
   * raises TypeError.
   */
  method StopTextHit(data: Option<string>, stopTexts: Option<seq<string>>) returns (hit: Result<bool, WebError>)
    ensures hit == StopHit(data, stopTexts)
  {
    var ts := stopTexts.GetOr([]);
    for k := 0 to |ts|
      invariant k > 0 ==> data.Some?
      invariant data.Some? ==> forall j :: 0 <= j < k ==> !IsSubstring(data.value, ts[j])
    {
      if data.None? {
        return Err(TypeMismatch);
      }
      if IsSubstring(data.value, ts[k]) {
        assert ts[k] in ts;
        return Ok(true);
      }
    }
    if |ts| > 0 {
      forall t | t in ts ensures !IsSubstring(data.value, t) {
        var j :| 0 <= j < |ts| && ts[j] == t;
      }
    }
    hit := Ok(false);
  }

  class WebActions {
    /** The instance-wide escalation flag `raise_exception`. */
    var raiseException: bool
    /** The browser session; None once it has been quit. */
    var driver: Option<Driver>
    /** `self.element`, the element the last lookup stored. */
    var element: Option<Element>

    /** A wrapper around an existing session (driver construction is not part of this model). */
    constructor (driver: Option<Driver>, raiseException: bool)
      ensures this.driver == driver && this.raiseException == raiseException && element.None?
    {
      this.driver := driver;
      this.raiseException := raiseException;
      this.element := None;
    }

    /**
     * `check_element_exist`: the instance flag is switched off around the
     * lookup and restored afterwards, so only the caller's `raiseOnMissing`
     * decides whether a missing element raises.
     */
    method CheckElementExist(timeout: int, polled: Option<Element>, raiseOnMissing: bool) returns (r: Result<Option<Element>, WebError>)
      modifies this`raiseException
      ensures raiseException == old(raiseException)
      ensures r.Ok? && r.value.Some? <==> Found(timeout, polled)
      ensures r.Ok? && r.value.Some? ==> r.value == polled
      ensures r.Err? <==> raiseOnMissing && !Found(timeout, polled)
      ensures r.Err? ==> r.error == ElementNotFound
    {
      var originalFlag := raiseException;
      raiseException := false;
      var elem := Resolve(timeout, polled, raiseException);
      raiseException := originalFlag;
      if elem.Ok? && elem.value.Some? {
        r := elem;
      } else if raiseOnMissing {
        r := Err(ElementNotFound);
      } else {
        r := Ok(None);
      }
    }

    /**
     * `click`: retry transient faults while time is left. `outcome(k)` is how
     * attempt k ends and `cost(k)` the ticks it takes. The result is Clicked
     * after a click, and after running out of time GaveUp or, when the
     * instance escalates, WebElementNotFoundError; `tries` counts attempts.
     */
    method Click(timeout: int, outcome: nat -> ClickFault, cost: nat -> nat) returns (r: Result<ClickEnd, WebError>, tries: nat)
      ensures tries == 0 <==> timeout <= 0
      ensures tries <= if timeout > 0 then timeout else 0
      ensures tries > 0 ==> Elapsed(cost, tries - 1) < timeout
      ensures forall j: nat :: j + 1 < tries ==> Transient(outcome(j))
      ensures r == Ok(Clicked) <==> tries > 0 && outcome(tries - 1) == ClickOk
      ensures r == Err(DriverFailure) <==> tries > 0 && outcome(tries - 1) == OtherFault
      ensures tries > 0 && Transient(outcome(tries - 1)) ==> Elapsed(cost, tries) >= timeout
      ensures !(tries > 0 && (outcome(tries - 1) == ClickOk || outcome(tries - 1) == OtherFault)) ==>
        r == if raiseException then Err(ElementNotFound) else Ok(GaveUp)
    {
      var start := 0;
      var now: nat := 0;
      tries := 0;
      while TimeLeft(start, timeout, now) > 0
        invariant now == Elapsed(cost, tries)
        invariant tries == 0 || Elapsed(cost, tries - 1) < timeout
        invariant forall j: nat :: j < tries ==> Transient(outcome(j))
        invariant timeout > 0 || tries == 0
        decreases TimeLeft(start, timeout, now)
      {
        var remaining := TimeLeft(start, timeout, now);
        var attempt := outcome(tries);
        tries := tries + 1;
        if attempt == ClickOk {
          return Ok(Clicked), tries;
        } else if attempt == OtherFault {
          return Err(DriverFailure), tries;
        } else if attempt == WaitTimeout {
          break;
        }
        now := now + cost(tries - 1) + PollInterval;
      }
      if raiseException {
        r := Err(ElementNotFound);
      } else {
        r := Ok(GaveUp);
      }
    }

    /**
     * `set_text`: the action (whose lookup failures are swallowed) and, when
     * `validate` is set, the lookup of the field, the read of its value and
     * the re-entry loop. The result counts the re-entries made.
     */
    method SetText(text: string, timeout: int, validate: bool, maxAttempts: int,
                   polledAction: Option<Element>, polledValidate: Option<Element>, value: nat -> string)
      returns (r: Result<nat, WebError>)
      modifies this`element
      ensures var before := ActionElement(timeout, polledAction, raiseException, old(element));
        if validate then Run(r, 1, element) == SetTextValidation(text, timeout, maxAttempts, raiseException, polledValidate, value, before)
        else r == Ok(0) && element == before
    {
      element := ActionElement(timeout, polledAction, raiseException, element);
      if !validate {
        return Ok(0);
      }
      var found := Resolve(timeout, polledValidate, raiseException);
      if found.Err? {
        return Err(found.error);
      }
      element := found.value;
      if element.None? {
        return Err(NoneHasNoAttribute);
      }
      if value(0) == text {
        return Ok(0);
      }
      var attempts := 0;
      var matched := false;
      while attempts < maxAttempts
        invariant 0 <= attempts && (attempts <= maxAttempts || attempts == 0)
        invariant Reenter(text, maxAttempts, value, attempts) == Reenter(text, maxAttempts, value, 0)
        decreases maxAttempts - attempts
      {
        if value(attempts + 1) == text {
          matched := true;
          break;
        }
        attempts := attempts + 1;
      }
      if attempts == maxAttempts {
        r := Err(TextNotSet);
      } else {
        r := Ok(if matched then attempts + 1 else attempts);
      }
    }

    /** `_perform_selection_action`. */
    method PerformSelectionAction(action: SelectAction, timeout: int, index: Option<int>, visibleText: Option<string>, value: Option<string>,
                                  polled: Option<Element>, isSelect: Element -> bool, apply: Primitive -> bool)
      returns (r: Result<(), WebError>)
      modifies this`element
      ensures Selected(r, element) == PerformSelection(action, timeout, Options(index, visibleText, value), polled, raiseException, isSelect, apply, old(element))
    {
      var found := Resolve(timeout, polled, raiseException);
      if found.Err? {
        return Err(found.error);
      }
      element := found.value;
      r := Ok(());
      if element.Some? {
        if !isSelect(element.value) {
          return Err(UnexpectedTagName);
        }
        var chosen := LastSupplied(Options(index, visibleText, value));
        if chosen.None? || !apply(Primitive(action, chosen.value)) {
          r := Err(SelectionNotFound);
        }
      }
    }

    /** `select_element`. */
    method SelectElement(timeout: int, index: Option<int>, visibleText: Option<string>, value: Option<string>,
                         polled: Option<Element>, isSelect: Element -> bool, apply: Primitive -> bool)
      returns (r: Result<(), WebError>)
      modifies this`element
      ensures Selected(r, element) == SelectOrDeselect(Select, timeout, index, visibleText, value, polled, raiseException, isSelect, apply, old(element))
    {
      if ParametersMissing(index, visibleText, value) {
        return Err(ParameterMissing);
      }
      r := PerformSelectionAction(Select, timeout, index, visibleText, value, polled, isSelect, apply);
    }

    /** `deselect_element`. */
    method DeselectElement(timeout: int, index: Option<int>, visibleText: Option<string>, value: Option<string>,
                           polled: Option<Element>, isSelect: Element -> bool, apply: Primitive -> bool)
      returns (r: Result<(), WebError>)
      modifies this`element
      ensures Selected(r, element) == SelectOrDeselect(Deselect, timeout, index, visibleText, value, polled, raiseException, isSelect, apply, old(element))
    {
      if ParametersMissing(index, visibleText, value) {
        return Err(ParameterMissing);
      }
      r := PerformSelectionAction(Deselect, timeout, index, visibleText, value, polled, isSelect, apply);
    }

    /** `validate_text`: attempt k resolves with `env.polled(k)` and reads `env.text(k)`. */
    method ValidateText(text: string, stopTexts: seq<string>, timeout: int, noOfAttempts: int, env: Probes)
      returns (r: Result<Data, WebError>)
      modifies this`element
      ensures var spec := Polling.ValidateText(ValidateQuery(text, stopTexts, timeout, noOfAttempts, raiseException), env, old(element));
        r == spec.outcome && element == spec.element
    {
      ghost var q := ValidateQuery(text, stopTexts, timeout, noOfAttempts, raiseException);
      var data: Option<string> := None;
      var attempts: nat := 0;
      while attempts < noOfAttempts
        invariant ValidateFrom(q, env, attempts, data, element) == Polling.ValidateText(q, env, old(element))
        decreases noOfAttempts - attempts
      {
        var found := Resolve(timeout, env.polled(attempts), raiseException);
        if found.Err? {
          return Err(found.error);
        }
        element := found.value;
        if element.None? {
          return Err(NoneHasNoAttribute);
        }
        var seen := env.text(attempts);
        data := Some(seen);
        if IsStopText(stopTexts, seen) {
          return Ok(Data(data, false));
        }
        if seen == text {
          return Ok(Data(data, true));
        }
        attempts := attempts + 1;
      }
      r := Ok(Data(data, false));
    }

    /** `wait_until_text_matches`: a countdown from `maxWait`, each attempt resolving with the countdown as its timeout. */
    method WaitUntilTextMatches(text: string, maxWait: int, env: Probes) returns (r: Result<bool, WebError>)
      modifies this`element
      ensures r == MatchFrom(text, maxWait, raiseException, env, 0, old(element)).outcome
      ensures element == MatchFrom(text, maxWait, raiseException, env, 0, old(element)).element
    {
      var remaining := maxWait;
      var k: nat := 0;
      while remaining > 0
        invariant remaining == maxWait - k
        invariant MatchFrom(text, maxWait, raiseException, env, k, element) == MatchFrom(text, maxWait, raiseException, env, 0, old(element))
        decreases remaining
      {
        var found := Resolve(remaining, env.polled(k), raiseException);
        if found.Err? {
          return Err(found.error);
        }
        element := found.value;
        if element.Some? && env.text(k) == text {
          return Ok(true);
        }
        remaining := remaining - 1;
        k := k + 1;
      }
      r := Ok(false);
    }

    /**
     * `wait_until_element_text_changes`: wait for `text` (observed through
     * `first`), then count down again from `maxWait` until a read (through
     * `second`) differs from it.
     */
    method WaitUntilElementTextChanges(text: string, maxWait: int, first: Probes, second: Probes) returns (r: Result<TextChange, WebError>)
      modifies this`element
      ensures r == TextChanges(text, maxWait, raiseException, first, second, old(element)).outcome
      ensures element == TextChanges(text, maxWait, raiseException, first, second, old(element)).element
    {
      var matched := WaitUntilTextMatches(text, maxWait, first);
      if matched.Err? {
        return Err(matched.error);
      }
      if !matched.value {
        return Ok(NeverMatched);
      }
      ghost var afterMatch := element;
      var remaining := maxWait;
      var k: nat := 0;
      while remaining > 0
        invariant remaining == maxWait - k
        invariant ChangeFrom(text, maxWait, raiseException, second, k, element) == ChangeFrom(text, maxWait, raiseException, second, 0, afterMatch)
        decreases remaining
      {
        var found := Resolve(remaining, second.polled(k), raiseException);
        if found.Err? {
          return Err(found.error);
        }
        element := found.value;
        if element.None? {
          return Err(NoneHasNoAttribute);
        }
        if second.text(k) != text {
          return Ok(Changed);
        }
        remaining := remaining - 1;
        k := k + 1;
      }
      r := Ok(Unchanged);
    }

    /**
     * `repeat_steps_until_success`, run for at most `fuel` passes: the outer
     * loop over attempts and the inner loop over the steps, updating
     * `max_wait_time`, `no_of_attempts`, `data` and `break_flag`.
     */
    method RepeatStepsUntilSuccess(steps: seq<Step>, maxWaitTime: int, noOfAttempts: int, env: StepEnv, policy: Policy, fuel: nat)
      returns (r: Orchestration)
      ensures r == Orchestrate(steps, maxWaitTime, noOfAttempts, env, policy, fuel)
    {
      var data: Option<string> := None;
      var wait := maxWaitTime;
      var attempts := noOfAttempts;
      var breakFlag := false;
      ghost var waits: seq<int> := [];
      var p: nat := 0;
      var fuelLeft := fuel;
      while attempts > 0
        invariant !breakFlag
        invariant RunFrom(steps, p, PassState(wait, attempts, data, breakFlag, waits), env, policy, fuelLeft)
          == Orchestrate(steps, maxWaitTime, noOfAttempts, env, policy, fuel)
        decreases fuelLeft
      {
        if fuelLeft == 0 {
          return Orchestration(OutOfFuel, p);
        }
        ghost var before := PassState(wait, attempts, data, breakFlag, waits);
        var i := 0;
        while i < |steps|
          invariant 0 <= i <= |steps|
          invariant PassFrom(steps, p, i, PassState(wait, attempts, data, breakFlag, waits), env) == PassFrom(steps, p, 0, before, env)
        {
          var step := steps[i];
          wait := step.maxWaitTime.GetOr(wait);
          attempts := step.noOfAttempts.GetOr(attempts);
          waits := waits + [wait];
          var fault := env.fault(p, i, wait);
          if fault.Some? {
            return Orchestration(Failed(fault.value), p + 1);
          }
          if step.action == StepAction.ValidateText {
            var reading := env.validation(p, i, wait);
            data := Some(reading.data);
            if reading.status {
              breakFlag := true;
            }
          }
          i := i + 1;
        }
        attempts := attempts - 1;
        p := p + 1;
        fuelLeft := fuelLeft - 1;
        if breakFlag {
          break;
        }
        if |steps| == 0 {
          return Orchestration(Failed(IndexOutOfRange), p);
        }
        var hit := StopTextHit(data, steps[|steps| - 1].stopTexts);
        if hit.Err? {
          return Orchestration(Failed(hit.error), p);
        }
        if hit.value {
          breakFlag := true;
          break;
        }
      }
      r := Orchestration(Conclude(breakFlag, data, policy, AllNamed(steps)), p);
    }

    /**
     * `quit`: end the session if there is one and forget it; `fails` says
     * whether the driver's own `quit` raises. Once the session is gone, a
     * further call does nothing.
     */
    method Quit(fails: bool) returns (r: Result<Option<Driver>, WebError>)
      modifies this`driver
      ensures old(driver).None? ==> r == Ok(None) && driver.None?
      ensures old(driver).Some? && fails ==> r == Err(DriverFailure) && driver == old(driver)
      ensures old(driver).Some? && !fails ==> r == Ok(old(driver)) && driver.None?
    {
      if driver.None? {
        return Ok(None);
      }
      if fails {
        return Err(DriverFailure);
      }
      r := Ok(driver);
      driver := None;
    }
  }
}
