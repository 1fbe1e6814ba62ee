/**
 * Specifications of the polling loops of the web core: `validate_text`,
 * `wait_until_text_matches`, `wait_until_element_text_changes` and the
 * re-entry loop of `set_text`. Each loop is a recursive function over the
 * attempt number; the class methods in module WebActions are proved equal to
 * them, and the lemmas below state what the loops promise.
 */
module Polling {
  import opened Wrappers
  import opened Resolution

  /**
   * What the page shows at attempt k: `polled(k)` is what the k-th resolution
   * produced and `text(k)` the text read from that element.
   */
  datatype Probes = Probes(polled: nat -> Option<Element>, text: nat -> string)

  /**
   * A loop's result: what it returned or raised, how many resolutions it made,
   * and the value it left in `self.element`.
   */
  datatype Run<T> = Run(outcome: Result<T, WebError>, probes: nat, element: Option<Element>)

  /** The `Data` record: the captured text (None if nothing was read) and the status. */
  datatype Data = Data(data: Option<string>, status: bool)

  // ---------------------------------------------------------------- validate_text

  /** The arguments of one `validate_text` call; `stopTexts` is [] when None is passed. */
  datatype ValidateQuery = ValidateQuery(text: string, stopTexts: seq<string>, timeout: int, attempts: int, raiseFlag: bool)

  /** `stop_texts and text in stop_texts`. */
  predicate IsStopText(stopTexts: seq<string>, s: string) {
    |stopTexts| > 0 && s in stopTexts
  }

  /** The `validate_text` loop from attempt `k`, with `last` the text read last. */
  function ValidateFrom(q: ValidateQuery, env: Probes, k: nat, last: Option<string>, element: Option<Element>): Run<Data>
    decreases q.attempts - k
  {
    if k >= q.attempts then Run(Ok(Data(last, false)), k, element)
    else match Resolve(q.timeout, env.polled(k), q.raiseFlag)
      case Err(e) => Run(Err(e), k + 1, element)
      case Ok(None) => Run(Err(NoneHasNoAttribute), k + 1, None)
      case Ok(Some(el)) =>
        var seen := env.text(k);
        if IsStopText(q.stopTexts, seen) then Run(Ok(Data(Some(seen), false)), k + 1, Some(el))
        else if seen == q.text then Run(Ok(Data(Some(seen), true)), k + 1, Some(el))
        else ValidateFrom(q, env, k + 1, Some(seen), Some(el))
  }

  /** A whole `validate_text` call, starting from the current `self.element`. */
  function ValidateText(q: ValidateQuery, env: Probes, element: Option<Element>): Run<Data> {
    ValidateFrom(q, env, 0, None, element)
  }

  /** Attempt j found the element and read a text that is neither a stop text nor the expected one. */
  predicate Continues(q: ValidateQuery, env: Probes, j: nat) {
    Found(q.timeout, env.polled(j)) && !IsStopText(q.stopTexts, env.text(j)) && env.text(j) != q.text
  }

  /** Attempt m found the element and read the expected text, which is not a stop text. */
  predicate Matches(q: ValidateQuery, env: Probes, m: nat) {
    Found(q.timeout, env.polled(m)) && !IsStopText(q.stopTexts, env.text(m)) && env.text(m) == q.text
  }

  lemma {:induction false} ValidateFromProbes(q: ValidateQuery, env: Probes, k: nat, last: Option<string>, element: Option<Element>)
    ensures var r := ValidateFrom(q, env, k, last, element);
      k <= r.probes && (r.probes == k <==> k >= q.attempts) && (k < q.attempts ==> r.probes <= q.attempts)
    decreases q.attempts - k
  {
    if k < q.attempts {
      match Resolve(q.timeout, env.polled(k), q.raiseFlag)
      case Err(_) =>
      case Ok(None) =>
      case Ok(Some(el)) =>
        if !IsStopText(q.stopTexts, env.text(k)) && env.text(k) != q.text {
          ValidateFromProbes(q, env, k + 1, Some(env.text(k)), Some(el));
        }
    }
  }

  /** `validate_text` resolves, and reads, at most `no_of_attempts` times, and not at all when that is not positive. */
  lemma ValidateReadsAtMostAttempts(q: ValidateQuery, env: Probes, element: Option<Element>)
    ensures ValidateText(q, env, element).probes <= if q.attempts > 0 then q.attempts else 0
    ensures ValidateText(q, env, element).probes == 0 <==> q.attempts <= 0
  {
    ValidateFromProbes(q, env, 0, None, element);
  }

  /** Attempt m is the first decisive attempt from k on, and it validates. */
  predicate ValidatesAt(q: ValidateQuery, env: Probes, k: nat, m: nat) {
    k <= m < q.attempts && Matches(q, env, m) && forall j: nat :: k <= j < m ==> Continues(q, env, j)
  }

  lemma {:induction false} ValidateFromStatus(q: ValidateQuery, env: Probes, k: nat, last: Option<string>, element: Option<Element>)
    ensures (ValidateFrom(q, env, k, last, element).outcome.Ok? && ValidateFrom(q, env, k, last, element).outcome.value.status)
      <==> exists m: nat :: ValidatesAt(q, env, k, m)
    decreases q.attempts - k
  {
    if k < q.attempts {
      match Resolve(q.timeout, env.polled(k), q.raiseFlag)
      case Err(_) =>
        NoValidationAfterDecisive(q, env, k);
      case Ok(None) =>
        NoValidationAfterDecisive(q, env, k);
      case Ok(Some(el)) =>
        if Continues(q, env, k) {
          var next := k + 1;
          ValidateFromStatus(q, env, next, Some(env.text(k)), Some(el));
          forall m: nat | ValidatesAt(q, env, next, m) ensures ValidatesAt(q, env, k, m) {
            assert Continues(q, env, k);
          }
          forall m: nat | ValidatesAt(q, env, k, m) ensures ValidatesAt(q, env, next, m) {
            assert m != k;
          }
        } else if Matches(q, env, k) {
          assert ValidatesAt(q, env, k, k);
        } else {
          NoValidationAfterDecisive(q, env, k);
        }
    }
  }

  /** Once attempt k is decisive without validating, no later attempt can validate from k. */
  lemma NoValidationAfterDecisive(q: ValidateQuery, env: Probes, k: nat)
    requires !Continues(q, env, k) && !Matches(q, env, k)
    ensures forall m: nat :: !ValidatesAt(q, env, k, m)
  {
    forall m: nat ensures !ValidatesAt(q, env, k, m) {
      if k < m {
        assert !Continues(q, env, k);
      }
    }
  }

  /**
   * `validate_text` succeeds exactly when some attempt within `no_of_attempts`
   * reads the expected text, and every earlier attempt found the element and
   * read neither a stop text nor the expected text.
   */
  lemma ValidateStatusIff(q: ValidateQuery, env: Probes, element: Option<Element>)
    ensures (ValidateText(q, env, element).outcome.Ok? && ValidateText(q, env, element).outcome.value.status)
      <==> exists m: nat :: m < q.attempts && Matches(q, env, m) && forall j: nat :: j < m ==> Continues(q, env, j)
  {
    ValidateFromStatus(q, env, 0, None, element);
    assert forall m: nat :: ValidatesAt(q, env, 0, m) <==> (m < q.attempts && Matches(q, env, m) && forall j: nat :: j < m ==> Continues(q, env, j));
  }

  /** Stop texts are checked before equality: an expected text that is also a stop text never validates. */
  lemma StopTextCheckedFirst(q: ValidateQuery, env: Probes, element: Option<Element>)
    requires q.text in q.stopTexts
    ensures !(ValidateText(q, env, element).outcome.Ok? && ValidateText(q, env, element).outcome.value.status)
  {
    ValidateStatusIff(q, env, element);
  }

  lemma {:induction false} ValidateFromData(q: ValidateQuery, env: Probes, k: nat, last: Option<string>, element: Option<Element>)
    ensures var r := ValidateFrom(q, env, k, last, element);
      r.outcome.Ok? ==> r.outcome.value.data == if r.probes <= k then last else Some(env.text(r.probes - 1))
    decreases q.attempts - k
  {
    ValidateFromProbes(q, env, k, last, element);
    if k < q.attempts {
      match Resolve(q.timeout, env.polled(k), q.raiseFlag)
      case Err(_) =>
      case Ok(None) =>
      case Ok(Some(el)) =>
        if !IsStopText(q.stopTexts, env.text(k)) && env.text(k) != q.text {
          ValidateFromData(q, env, k + 1, Some(env.text(k)), Some(el));
          ValidateFromProbes(q, env, k + 1, Some(env.text(k)), Some(el));
        }
    }
  }

  /** The captured `data` is the text of the last read, and None when nothing was read. */
  lemma ValidateDataIsLastRead(q: ValidateQuery, env: Probes, element: Option<Element>)
    ensures var r := ValidateText(q, env, element);
      r.outcome.Ok? ==> r.outcome.value.data == if r.probes == 0 then None else Some(env.text(r.probes - 1))
  {
    ValidateFromData(q, env, 0, None, element);
  }

  // ------------------------------------------------------- wait_until_text_matches

  /**
   * The `wait_until_text_matches` loop from attempt `k`. The budget is a
   * countdown of `maxWait - k`, decremented once per attempt whatever the
   * attempt cost, and each resolution is given that countdown as its timeout.
   */
  function MatchFrom(text: string, maxWait: int, raiseFlag: bool, env: Probes, k: nat, element: Option<Element>): Run<bool>
    decreases maxWait - k
  {
    if maxWait - k <= 0 then Run(Ok(false), k, element)
    else match Resolve(maxWait - k, env.polled(k), raiseFlag)
      case Err(e) => Run(Err(e), k + 1, element)
      case Ok(found) =>
        if found.Some? && env.text(k) == text then Run(Ok(true), k + 1, found)
        else MatchFrom(text, maxWait, raiseFlag, env, k + 1, found)
  }

  /** Attempt j of a countdown wait neither raised nor found the text. */
  predicate MatchMisses(text: string, raiseFlag: bool, env: Probes, j: nat) {
    (env.polled(j).None? && !raiseFlag) || (env.polled(j).Some? && env.text(j) != text)
  }

  lemma {:induction false} MatchFromProbes(text: string, maxWait: int, raiseFlag: bool, env: Probes, k: nat, element: Option<Element>)
    ensures var r := MatchFrom(text, maxWait, raiseFlag, env, k, element);
      k <= r.probes && (k < maxWait ==> r.probes <= maxWait) && (k >= maxWait ==> r.probes == k)
    decreases maxWait - k
  {
    if maxWait - k > 0 {
      match Resolve(maxWait - k, env.polled(k), raiseFlag)
      case Err(_) =>
      case Ok(found) =>
        if !(found.Some? && env.text(k) == text) {
          MatchFromProbes(text, maxWait, raiseFlag, env, k + 1, found);
        }
    }
  }

  /** The countdown wait resolves at most `max_wait_time` times. */
  lemma MatchResolvesAtMostMaxWait(text: string, maxWait: int, raiseFlag: bool, env: Probes, element: Option<Element>)
    ensures MatchFrom(text, maxWait, raiseFlag, env, 0, element).probes <= if maxWait > 0 then maxWait else 0
  {
    MatchFromProbes(text, maxWait, raiseFlag, env, 0, element);
  }

  /** Attempt m is the first attempt from k on to read the text, every earlier one missed. */
  predicate MatchesAt(text: string, maxWait: int, raiseFlag: bool, env: Probes, k: nat, m: nat) {
    k <= m < maxWait && env.polled(m).Some? && env.text(m) == text
    && forall j: nat :: k <= j < m ==> MatchMisses(text, raiseFlag, env, j)
  }

  lemma {:induction false} MatchFromIff(text: string, maxWait: int, raiseFlag: bool, env: Probes, k: nat, element: Option<Element>)
    ensures MatchFrom(text, maxWait, raiseFlag, env, k, element).outcome == Ok(true)
      <==> exists m: nat :: MatchesAt(text, maxWait, raiseFlag, env, k, m)
    decreases maxWait - k
  {
    if maxWait - k > 0 {
      match Resolve(maxWait - k, env.polled(k), raiseFlag)
      case Err(_) =>
        forall m: nat ensures !MatchesAt(text, maxWait, raiseFlag, env, k, m) {
          if k < m {
            assert !MatchMisses(text, raiseFlag, env, k);
          }
        }
      case Ok(found) =>
        if found.Some? && env.text(k) == text {
          assert MatchesAt(text, maxWait, raiseFlag, env, k, k);
        } else {
          var next := k + 1;
          MatchFromIff(text, maxWait, raiseFlag, env, next, found);
          forall m: nat | MatchesAt(text, maxWait, raiseFlag, env, next, m) ensures MatchesAt(text, maxWait, raiseFlag, env, k, m) {
            assert MatchMisses(text, raiseFlag, env, k);
          }
          forall m: nat | MatchesAt(text, maxWait, raiseFlag, env, k, m) ensures MatchesAt(text, maxWait, raiseFlag, env, next, m) {
            assert m != k;
          }
        }
    }
  }

  lemma {:induction false} MatchFromRaisesOnlyWhenEscalating(text: string, maxWait: int, raiseFlag: bool, env: Probes, k: nat, element: Option<Element>)
    ensures MatchFrom(text, maxWait, raiseFlag, env, k, element).outcome.Err? ==> raiseFlag
    ensures MatchFrom(text, maxWait, raiseFlag, env, k, element).outcome.Err? ==> MatchFrom(text, maxWait, raiseFlag, env, k, element).outcome.error == ElementNotFound
    decreases maxWait - k
  {
    if maxWait - k > 0 {
      match Resolve(maxWait - k, env.polled(k), raiseFlag)
      case Err(_) =>
      case Ok(found) =>
        if !(found.Some? && env.text(k) == text) {
          MatchFromRaisesOnlyWhenEscalating(text, maxWait, raiseFlag, env, k + 1, found);
        }
    }
  }

  /**
   * The countdown wait returns True exactly when, within `max_wait_time`
   * attempts, some attempt reads the text and every earlier one missed
   * without raising; it can raise only when the instance escalates.
   */
  lemma TextMatchesIff(text: string, maxWait: int, raiseFlag: bool, env: Probes, element: Option<Element>)
    ensures MatchFrom(text, maxWait, raiseFlag, env, 0, element).outcome == Ok(true)
      <==> exists m: nat :: MatchesAt(text, maxWait, raiseFlag, env, 0, m)
    ensures MatchFrom(text, maxWait, raiseFlag, env, 0, element).outcome.Err? ==> raiseFlag
  {
    MatchFromIff(text, maxWait, raiseFlag, env, 0, element);
    MatchFromRaisesOnlyWhenEscalating(text, maxWait, raiseFlag, env, 0, element);
  }

  // ------------------------------------------------ wait_until_element_text_changes

  /** How `wait_until_element_text_changes` ended (the source returns None in all three cases). */
  datatype TextChange = NeverMatched | Changed | Unchanged

  /** The second loop of `wait_until_element_text_changes`, from attempt `k`. */
  function ChangeFrom(text: string, maxWait: int, raiseFlag: bool, env: Probes, k: nat, element: Option<Element>): Run<TextChange>
    decreases maxWait - k
  {
    if maxWait - k <= 0 then Run(Ok(Unchanged), k, element)
    else match Resolve(maxWait - k, env.polled(k), raiseFlag)
      case Err(e) => Run(Err(e), k + 1, element)
      case Ok(None) => Run(Err(NoneHasNoAttribute), k + 1, None)
      case Ok(Some(el)) =>
        if env.text(k) != text then Run(Ok(Changed), k + 1, Some(el))
        else ChangeFrom(text, maxWait, raiseFlag, env, k + 1, Some(el))
  }

  /**
   * First wait until the text is `text` (`first` is what that wait observes),
   * then poll the second observation stream until it differs. Both phases
   * start their countdown at `max_wait_time`.
   */
  function TextChanges(text: string, maxWait: int, raiseFlag: bool, first: Probes, second: Probes, element: Option<Element>): Run<TextChange> {
    var m := MatchFrom(text, maxWait, raiseFlag, first, 0, element);
    match m.outcome
    case Err(e) => Run(Err(e), m.probes, m.element)
    case Ok(false) => Run(Ok(NeverMatched), m.probes, m.element)
    case Ok(true) =>
      var c := ChangeFrom(text, maxWait, raiseFlag, second, 0, m.element);
      Run(c.outcome, m.probes + c.probes, c.element)
  }

  /** Attempt m is the first from k on to read a different text; every earlier read showed `text`. */
  predicate ChangesAt(text: string, maxWait: int, env: Probes, k: nat, m: nat) {
    k <= m < maxWait && env.polled(m).Some? && env.text(m) != text
    && forall j: nat :: k <= j < m ==> env.polled(j).Some? && env.text(j) == text
  }

  lemma {:induction false} ChangeFromIff(text: string, maxWait: int, raiseFlag: bool, env: Probes, k: nat, element: Option<Element>)
    ensures ChangeFrom(text, maxWait, raiseFlag, env, k, element).outcome == Ok(Changed)
      <==> exists m: nat :: ChangesAt(text, maxWait, env, k, m)
    decreases maxWait - k
  {
    if maxWait - k > 0 {
      match Resolve(maxWait - k, env.polled(k), raiseFlag)
      case Err(_) =>
        NoChangeAfterMissing(text, maxWait, env, k);
      case Ok(None) =>
        NoChangeAfterMissing(text, maxWait, env, k);
      case Ok(Some(el)) =>
        if env.text(k) != text {
          assert ChangesAt(text, maxWait, env, k, k);
        } else {
          var next := k + 1;
          ChangeFromIff(text, maxWait, raiseFlag, env, next, Some(el));
          forall m: nat | ChangesAt(text, maxWait, env, next, m) ensures ChangesAt(text, maxWait, env, k, m) {
            assert env.polled(k).Some? && env.text(k) == text;
          }
          forall m: nat | ChangesAt(text, maxWait, env, k, m) ensures ChangesAt(text, maxWait, env, next, m) {
            assert m != k;
          }
        }
    }
  }

  lemma NoChangeAfterMissing(text: string, maxWait: int, env: Probes, k: nat)
    requires env.polled(k).None?
    ensures forall m: nat :: !ChangesAt(text, maxWait, env, k, m)
  {
    forall m: nat ensures !ChangesAt(text, maxWait, env, k, m) {
      if k < m {
        assert env.polled(k).None?;
      }
    }
  }

  /**
   * Attempt m, the first from k on to find no element, comes while every
   * earlier read showed `text`; the instance does not escalate, so the miss
   * yields None and reading its `.text` raises AttributeError.
   */
  predicate VanishesAt(text: string, maxWait: int, raiseFlag: bool, env: Probes, k: nat, m: nat) {
    k <= m < maxWait && env.polled(m).None? && !raiseFlag
    && forall j: nat :: k <= j < m ==> env.polled(j).Some? && env.text(j) == text
  }

  lemma {:induction false} ChangeFromVanishesIff(text: string, maxWait: int, raiseFlag: bool, env: Probes, k: nat, element: Option<Element>)
    ensures ChangeFrom(text, maxWait, raiseFlag, env, k, element).outcome == Err(NoneHasNoAttribute)
      <==> exists m: nat :: VanishesAt(text, maxWait, raiseFlag, env, k, m)
    decreases maxWait - k
  {
    if maxWait - k > 0 {
      match Resolve(maxWait - k, env.polled(k), raiseFlag)
      case Err(_) =>
        forall m: nat ensures !VanishesAt(text, maxWait, raiseFlag, env, k, m) {
          if k < m {
            assert env.polled(k).None? || raiseFlag;
          }
        }
      case Ok(None) =>
        assert VanishesAt(text, maxWait, raiseFlag, env, k, k);
      case Ok(Some(el)) =>
        if env.text(k) != text {
          forall m: nat ensures !VanishesAt(text, maxWait, raiseFlag, env, k, m) {
            if k < m {
              assert env.text(k) != text;
            }
          }
        } else {
          var next := k + 1;
          ChangeFromVanishesIff(text, maxWait, raiseFlag, env, next, Some(el));
          forall m: nat | VanishesAt(text, maxWait, raiseFlag, env, next, m) ensures VanishesAt(text, maxWait, raiseFlag, env, k, m) {
            assert env.polled(k).Some? && env.text(k) == text;
          }
          forall m: nat | VanishesAt(text, maxWait, raiseFlag, env, k, m) ensures VanishesAt(text, maxWait, raiseFlag, env, next, m) {
            assert m != k;
          }
        }
    }
  }

  /**
   * A change is reported only after the known text was confirmed, and exactly
   * when a later read (within the countdown) differs from it while every read
   * before it still showed the known text.
   */
  lemma TextChangedIff(text: string, maxWait: int, raiseFlag: bool, first: Probes, second: Probes, element: Option<Element>)
    ensures TextChanges(text, maxWait, raiseFlag, first, second, element).outcome == Ok(Changed)
      <==> MatchFrom(text, maxWait, raiseFlag, first, 0, element).outcome == Ok(true)
           && exists m: nat :: ChangesAt(text, maxWait, second, 0, m)
    ensures TextChanges(text, maxWait, raiseFlag, first, second, element).outcome == Err(NoneHasNoAttribute)
      <==> MatchFrom(text, maxWait, raiseFlag, first, 0, element).outcome == Ok(true)
           && exists m: nat :: VanishesAt(text, maxWait, raiseFlag, second, 0, m)
  {
    var m := MatchFrom(text, maxWait, raiseFlag, first, 0, element);
    MatchFromRaisesOnlyWhenEscalating(text, maxWait, raiseFlag, first, 0, element);
    ChangeFromIff(text, maxWait, raiseFlag, second, 0, m.element);
    ChangeFromVanishesIff(text, maxWait, raiseFlag, second, 0, m.element);
  }

  // ------------------------------------------------------- set_text validation

  /**
   * The re-entry loop of `set_text` with `attempts == k`: each round clears (when
   * asked), types the text again and reads the field's value `value(k + 1)`.
   * Afterwards it raises only if the counter reached `max_validation_attempts`.
   */
  function Reenter(text: string, maxAttempts: int, value: nat -> string, k: nat): Result<nat, WebError>
    decreases maxAttempts - k
  {
    if k < maxAttempts then
      if value(k + 1) == text then Ok(k + 1) else Reenter(text, maxAttempts, value, k + 1)
    else if k == maxAttempts then Err(TextNotSet)
    else Ok(k)
  }

  /**
   * The validation part of `set_text`: resolve the field, read its value
   * `value(0)` and re-enter the text while it differs. The result is the
   * number of re-entries made.
   */
  function SetTextValidation(text: string, timeout: int, maxAttempts: int, raiseFlag: bool, polled: Option<Element>, value: nat -> string, element: Option<Element>): Run<nat> {
    match Resolve(timeout, polled, raiseFlag)
    case Err(e) => Run(Err(e), 1, element)
    case Ok(None) => Run(Err(NoneHasNoAttribute), 1, None)
    case Ok(Some(el)) => Run(if value(0) == text then Ok(0) else Reenter(text, maxAttempts, value, 0), 1, Some(el))
  }

  lemma {:induction false} ReenterFrom(text: string, maxAttempts: int, value: nat -> string, k: nat)
    requires k <= maxAttempts || k == 0
    ensures Reenter(text, maxAttempts, value, k).Err? <==>
      k <= maxAttempts && forall j :: k + 1 <= j <= maxAttempts ==> value(j) != text
    ensures Reenter(text, maxAttempts, value, k).Err? ==> Reenter(text, maxAttempts, value, k).error == TextNotSet
    ensures Reenter(text, maxAttempts, value, k).Ok? ==>
      var n := Reenter(text, maxAttempts, value, k).value;
      (n == 0 && maxAttempts < 0) ||
      (k < n <= maxAttempts && value(n) == text && forall j :: k + 1 <= j < n ==> value(j) != text)
    decreases maxAttempts - k
  {
    if k < maxAttempts && value(k + 1) != text {
      ReenterFrom(text, maxAttempts, value, k + 1);
    }
  }

  /**
   * `set_text` validation raises TextNotSet exactly when the field was found,
   * its value differed, the limit is not negative and none of the
   * `max_validation_attempts` re-entries took; a success after re-entries
   * stops at the first one that took. With a negative limit the loop never
   * runs and the check `attempts == max_validation_attempts` lets the call
   * succeed although the value still differs.
   */
  lemma SetTextValidationIff(text: string, timeout: int, maxAttempts: int, raiseFlag: bool, polled: Option<Element>, value: nat -> string, element: Option<Element>)
    ensures var r := SetTextValidation(text, timeout, maxAttempts, raiseFlag, polled, value, element);
      (r.outcome == Err(TextNotSet) <==>
        Found(timeout, polled) && value(0) != text && 0 <= maxAttempts
        && forall j :: 1 <= j <= maxAttempts ==> value(j) != text)
      && (r.outcome == Ok(0) <==> Found(timeout, polled) && (value(0) == text || maxAttempts < 0))
      && (r.outcome.Ok? && r.outcome.value > 0 ==>
        var n := r.outcome.value;
        n <= maxAttempts && value(n) == text && forall j :: 0 <= j < n ==> value(j) != text)
  {
    ReenterFrom(text, maxAttempts, value, 0);
  }
}
