/**
 * Element resolution and error escalation (`_get_element_if_exist`).
 *
 * The wait itself (`WebDriverWait(...).until(cond)`) is an oracle: `polled` is
 * what it produced, a live element or nothing (it timed out or failed).
 */
module Resolution {
  import opened Wrappers
  import opened TimeBudget

  /** An opaque handle on a node of the remote element tree. */
  datatype Element = Element(handle: nat)

  /** An opaque handle on a browser session. */
  datatype Driver = Driver(session: nat)

  /** The exceptions the web core can raise. */
  datatype WebError =
    | ElementNotFound      // WebElementNotFoundError
    | SelectionNotFound    // SelectionNotFoundError
    | UnexpectedTagName    // UnexpectedTagNameException: `Select(...)` of an element that is not a <select>
    | ParameterMissing     // ParameterMissingError
    | NoneHasNoAttribute   // AttributeError: reading `.text` or `.get_attribute` of None
    | TextNotSet           // the plain Exception raised by `set_text` validation
    | StepsIncomplete      // the plain Exception raised by `repeat_steps_until_success`
    | IndexOutOfRange      // IndexError: `steps[-1]` of an empty step list
    | TypeMismatch         // TypeError: `None in stop_text`
    | DriverFailure        // any other exception from the driver, propagated as is

  /** The polling interval, 250 ms, is one tick. */
  const PollInterval: nat := 1

  /**
   * One resolution with a `timeout`-tick budget. The budget is computed in the
   * same tick as its start, so it is exhausted at once exactly when
   * `timeout <= 0`. A failed resolution raises only when `raiseFlag` (the
   * instance's `raise_exception`) is set; otherwise it yields no element.
   */
  function Resolve(timeout: int, polled: Option<Element>, raiseFlag: bool): (r: Result<Option<Element>, WebError>)
    ensures r.Ok? && r.value.Some? <==> timeout > 0 && polled.Some?
    ensures r.Ok? && r.value.Some? ==> r.value == polled
    ensures r.Err? <==> raiseFlag && !(timeout > 0 && polled.Some?)
    ensures r.Err? ==> r.error == ElementNotFound
  {
    var start := 0;
    var remaining := TimeLeft(start, timeout, start);
    if remaining > 0 && polled.Some? then Ok(polled)
    else if raiseFlag then Err(ElementNotFound)
    else Ok(None)
  }

  /** Whether a resolution with this budget finds the polled element. */
  predicate Found(timeout: int, polled: Option<Element>) {
    timeout > 0 && polled.Some?
  }

  /** The escalation flag only decides how a failure is reported, never whether the element is found. */
  lemma EscalationOnlyAffectsFailures(timeout: int, polled: Option<Element>)
    ensures Resolve(timeout, polled, true).Ok? <==> Found(timeout, polled)
    ensures Found(timeout, polled) ==> Resolve(timeout, polled, true) == Resolve(timeout, polled, false)
    ensures !Found(timeout, polled) ==> Resolve(timeout, polled, false) == Ok(None)
  {
  }
}
