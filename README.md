# Browser and Excel automation helpers: a verified model of the decision logic

The repository is a Python library of wrappers for driving a browser through
Selenium (`WebActions`), driving Excel through COM (`ExcelAutomation`) and
reading a YAML configuration file (`read_config`, `get_config_data`). These
wrappers are thin, so what they decide themselves is mostly retrying, escalating
errors and interpreting loosely typed arguments:

- how long a deadline has left;
- whether a locator is an XPath or an id;
- whether a missing element raises or yields nothing;
- how transient click failures are retried;
- how a typed text is re-entered until the field shows it;
- which `Select` primitive a selection call runs;
- how the text-polling loops end;
- how the multi-pass step interpreter `repeat_steps_until_success` applies
  per-step overrides and decides its result;
- how Excel is quit with retries;
- how a data frame is laid out from a start cell;
- which errors `close_workbook` ignores;
- in which order `read_config` checks its flags.

This project models that logic in Dafny and proves what it promises. The
browser, the COM server and the file system are oracles passed in as
parameters:

- the element each poll resolves to, and the text read from it;
- how each click attempt ends and how long it takes;
- how each COM `Quit` call answers;
- whether a path exists.

Time is counted in integer ticks, where one tick is the 250 ms polling
interval.

Modules, following the source files:

- `Wrappers`, `Text`: Option/Result values, and Python's substring test `a in b`.
- `TimeBudget`: `_time_left`.
- `Locators`: `_get_find_method`.
- `Resolution`: `_get_element_if_exist` and the exceptions of the web core.
- `Polling`: specification functions for the loops of `validate_text`,
  `wait_until_text_matches`, `wait_until_element_text_changes` and the re-entry
  loop of `set_text`, with their lemmas.
- `Selection`: the guard of `select_element`/`deselect_element` and the
  dispatch of `_perform_selection_action`.
- `Orchestrator`: the specification of `repeat_steps_until_success` and its
  lemmas.
- `WebActions`: the `WebActions` class. It has the fields `raiseException`,
  `driver` and `element`, and methods whose loops are proved equal to the
  specification functions above.
- `ExcelAutomation`: the `Worksheet` and `ExcelAutomation` classes.
- `ConfigReader`: `read_config` and `get_config_data`.

The model follows the code in three places where a plain reading of the
documentation suggests otherwise:

- In `repeat_steps_until_success`, a stop text found after a pass ends the call
  as a success (status True), not as a failure (web_actions.py:832-837 set
  `break_flag`).
- In Excel `quit`, a forced kill happens only on a COM error other than "busy".
  When every answer was "busy", the loop just ends and nothing is killed
  (excel_automation.py:284-301).
- In `wait_until_text_matches` and `wait_until_element_text_changes`, the budget
  is a counter decremented once per attempt, not wall-clock time.

## Model

| member | source | states |
|---|---|---|
| TimeBudget.TimeLeft | web_actions.py:105-108 | the result is 0 exactly when the elapsed time has reached the timeout; otherwise remaining time plus elapsed time equals the timeout |
| TimeBudget.TimeLeftNonIncreasing | web_actions.py:105-108 | the time left never grows as the clock advances |
| TimeBudget.TimeLeftAfterWaiting | web_actions.py:105-108 | waiting d ticks, no more than what is left, removes exactly d ticks |
| TimeBudget.ExhaustedStaysExhausted | web_actions.py:105-108 | once the budget is 0 it stays 0 |
| Locators.FindMethod | web_actions.py:209-217 | a locator is XPath exactly when it starts with "//" or "("; anything else, the empty string included, is an id |
| Locators.XPathPrefixes | web_actions.py:215-216 | every string with a "//" or "(" prefix is an XPath |
| Locators.SingleSlashIsId | web_actions.py:215-217 | "/" followed by anything but a second "/" is classified as an id |
| Resolution.Resolve | web_actions.py:219-256 | an element is returned exactly when time is left and the poll found one; otherwise WebElementNotFoundError exactly when raise_exception is set, else None |
| Resolution.EscalationOnlyAffectsFailures | web_actions.py:219-256 | the escalation flag never changes whether an element is found, only how a miss is reported |
| Polling.ValidateFromProbes | web_actions.py:1082-1111 | from attempt k on, the loop makes between k and no_of_attempts resolutions in total, and none when k ≥ no_of_attempts |
| Polling.ValidateReadsAtMostAttempts | web_actions.py:1082-1111 | validate_text resolves at most no_of_attempts times, and not at all when that is not positive |
| Polling.ValidateFromStatus | web_actions.py:1082-1111 | from attempt k, status True exactly when some later attempt validates and every attempt between only continued |
| Polling.NoValidationAfterDecisive | web_actions.py:1085-1101 | an attempt that stops the loop without validating rules out validation by any later attempt |
| Polling.ValidateStatusIff | web_actions.py:1056-1111 | status True exactly when some attempt within no_of_attempts finds the element and reads the expected text, which is not a stop text, and every earlier attempt found the element and read neither a stop text nor the expected text |
| Polling.StopTextCheckedFirst | web_actions.py:1086-1101 | an expected text that is also a stop text never validates |
| Polling.ValidateFromData | web_actions.py:1080-1111 | the data returned from attempt k on is the last text read, or the carried value when nothing was read |
| Polling.ValidateDataIsLastRead | web_actions.py:1080-1111 | the returned data is the text of the last read, and None when there was no read |
| Polling.MatchFromProbes | web_actions.py:939-974 | the countdown makes at most max_wait_time resolutions, and none once it is exhausted |
| Polling.MatchResolvesAtMostMaxWait | web_actions.py:939-974 | wait_until_text_matches resolves at most max_wait_time times |
| Polling.MatchFromIff | web_actions.py:939-974 | from attempt k, True exactly when some attempt within the countdown reads the text and every earlier one missed without raising |
| Polling.MatchFromRaisesOnlyWhenEscalating | web_actions.py:939-974 | the countdown ends by raising only when raise_exception is set, and what it raises is WebElementNotFoundError |
| Polling.TextMatchesIff | web_actions.py:939-974 | True exactly when some attempt within max_wait_time reads the text and every earlier one missed without raising; an exception only when raise_exception is set |
| Polling.ChangeFromIff | web_actions.py:862-907 | the second loop reports a change exactly when some attempt within the countdown reads a different text and every earlier read showed the known one |
| Polling.NoChangeAfterMissing | web_actions.py:862-907 | an attempt that finds no element rules out a change reported from it on |
| Polling.ChangeFromVanishesIff | web_actions.py:862-907 | the second loop raises AttributeError (`None.text`) exactly when, with raise_exception off, some attempt within the countdown finds no element and every earlier read showed the known text |
| Polling.TextChangedIff | web_actions.py:862-907 | a change is reported exactly when the first wait saw the known text and a later read, within the countdown, differs from it while every read before it showed that text; AttributeError exactly when the first wait saw the known text and the element is then gone, with raise_exception off, before any read differs |
| Polling.ReenterFrom | web_actions.py:704-719 | the re-entry loop raises exactly when none of the remaining re-entries took; a success stops at the first one that took |
| Polling.SetTextValidationIff | web_actions.py:699-719 | the error "failed to set text" exactly when the field was found, differed, the limit is not negative and no re-entry took; success without re-entry when the value matched or the limit is negative; otherwise the first re-entry that took |
| Selection.OptionsPriority | web_actions.py:527-540 | the dispatch ends on value when it is not None, else on visible_text, else on index, else on nothing |
| Selection.ChosenIsLastSupplied | web_actions.py:527-540 | the chosen option is the last one that is not None, and nothing is chosen only when all are None |
| Selection.LastSupplied | web_actions.py:527-540 | the dispatch loop ends on the last option that is not None (nothing when all are None), as Chosen defines it |
| Selection.GuardImpliesChoice | web_actions.py:1341-1350 | once the guard passes, some option is present, so the loop chooses one |
| Selection.ZeroIndexAloneIsMissing | web_actions.py:1341-1350 | index=0 alone, or an empty visible_text alone, raises ParameterMissingError |
| Selection.ValueWinsOverIndex | web_actions.py:527-540 | index=0 with a non-empty value passes the guard, and value, not index, is the last supplied |
| Selection.SelectionOutcomes | web_actions.py:486-565 | ParameterMissingError exactly when all three arguments are falsy, with self.element untouched; otherwise a missing element is skipped or raises per raise_exception; a found element is stored; UnexpectedTagNameException exactly when it is not a <select> (Select() is outside the try); otherwise the call succeeds exactly when the primitive for the last supplied option succeeds, else SelectionNotFoundError |
| Selection.LastSuppliedUnique | web_actions.py:527-540 | only one option can be the last one supplied |
| Selection.IndexEqualToWaitIsMisnamed | web_actions.py:533-536 | with index 3 and max_wait_time 3, the name lookup yields "max_wait_time", so no primitive exists, although an index was supplied |
| Selection.EqualTextAndValueSelectsByText | web_actions.py:533-536 | with visible_text and value both "a", the lookup selects by visible text, whereas the last supplied option is the value |
| Selection.AsWrittenAgreesWhenDistinct | web_actions.py:533-540 | when the chosen value equals no earlier local, the lookup calls the primitive for the last supplied option |
| Orchestrator.LastOverrideFront | web_actions.py:750-755 | adopting overrides one step at a time from the front ends at the latest override |
| Orchestrator.LastOverrideExtend | web_actions.py:750-755 | one more step's override replaces the value, its absence keeps it |
| Orchestrator.LastOverrideNone | web_actions.py:750-755 | with no override the carried value is kept |
| Orchestrator.LastOverrideIgnoresCarried | web_actions.py:750-755 | once some step overrides, the carried value no longer matters |
| Orchestrator.WaitsAreLatest | web_actions.py:750-751 | the wait step n receives is the latest max_wait_time override among steps 0..n, or the carried value |
| Orchestrator.DispatchOverrides | web_actions.py:750-755 | dispatching a step adopts its max_wait_time and no_of_attempts keys when present, keeps the carried values otherwise, and records the wait it ran with |
| Orchestrator.PassFromAttempts | web_actions.py:750-755 | the rest of a pass leaves no_of_attempts at the latest override among the remaining steps, or as carried |
| Orchestrator.PassFromWait | web_actions.py:750-751 | the rest of a pass leaves max_wait_time at the latest override and dispatches each remaining step with the wait adopted up to it |
| Orchestrator.PassFromOverrides | web_actions.py:750-827 | the rest of a pass leaves both counters at the latest override and records the wait of each dispatched step |
| Orchestrator.PassOverrides | web_actions.py:749-827 | a completed pass dispatches every step with the latest wait override so far, and leaves max_wait_time and no_of_attempts at the latest override of the whole list, whatever they were before |
| Orchestrator.DispatchedWait | web_actions.py:750-827 | step n of a completed pass received the latest max_wait_time override among steps 0..n |
| Orchestrator.RunFromBoundedWithoutOverrides | web_actions.py:749-837 | without per-step no_of_attempts, the loop from any pass ends within the attempts that remain |
| Orchestrator.AtMostAttemptsPasses | web_actions.py:749-837 | without per-step no_of_attempts, the call ends within no_of_attempts passes |
| Orchestrator.QuietPassFrom | web_actions.py:750-827 | a pass with no exception and no successful validation completes and leaves break_flag as it was |
| Orchestrator.RunFromNeverEnds | web_actions.py:749-837 | a per-step override of 2 or more, with nothing succeeding, raising or hitting a stop text, keeps the loop going forever |
| Orchestrator.OverrideKeepsLooping | web_actions.py:749-837 | a per-step no_of_attempts override resets the counter on every pass, so such a call never ends however many passes are allowed |
| Orchestrator.RunFromPolicy | web_actions.py:839-860 | from any pass, a returned value is a Data record exactly when return_data is set, and a failure is returned only when raise_exception is off and every step has a name or element |
| Orchestrator.ResultHonoursPolicy | web_actions.py:746-860 | a returned value is a Data record exactly when return_data is set; a failure is returned only when raise_exception is off and every step has a name or element for the failure message |
| Orchestrator.ExhaustedAttempts | web_actions.py:839-856 | running out of attempts without success raises TypeError when some step has neither name nor element (joining all_names, :746, :846, fails before raise_exception is read), otherwise raises under raise_exception, otherwise returns Data(data, False) or False |
| Orchestrator.QuietAfter | web_actions.py:750-829 | the rest of a pass in which nothing raises completes, and a break_flag already set stays set |
| Orchestrator.BreakSticks | web_actions.py:750-829 | in a pass in which nothing raises, a successful validate_text step leaves break_flag set at the end of the pass, whatever the later steps read |
| Orchestrator.ValidationSuccessEndsCall | web_actions.py:749-860 | a pass in which nothing raises and some validate_text step succeeds ends the call after that pass with status True, and with return_data the result is Data of the pass's data and True |
| Orchestrator.DataCarried | web_actions.py:750-829 | steps without validate_text leave data as they found it |
| Orchestrator.DataFromLastValidation | web_actions.py:750-829 | from step k on, the data a completed pass leaves is what the last validate_text step read, with the wait recorded for that step |
| Orchestrator.PassDataIsLastValidation | web_actions.py:750-829 | the data a completed pass leaves is the reading of its last validate_text step, run with the latest max_wait_time override up to that step |
| Orchestrator.NoValidationKeepsData | web_actions.py:750-829 | a pass without a validate_text step keeps the data it started with |
| Orchestrator.SuccessDoesNotStopPass | web_actions.py:750-827 | a step that raises fails the pass even after earlier steps succeeded |
| Orchestrator.LaterStepStillRuns | web_actions.py:814-827 | a successful validation only sets break_flag; a later step of the same pass still runs, and its exception ends the call |
| Orchestrator.StopTextEndsAsSuccess | web_actions.py:832-837 | after a pass without a successful validation, data that any stop text of the final step contains ends the call as a success, with that data |
| Orchestrator.EmptyStepsRaise | web_actions.py:832-835 | an empty step list raises IndexError after the first pass |
| Orchestrator.ScenarioDone | web_actions.py:724-860 | set text, click, validate "done": one pass, Data("done", True) |
| Orchestrator.ScenarioStopText | web_actions.py:724-860 | the same steps reading the stop text "error": one pass, Data("error", True) |
| Orchestrator.ScenarioUnnamedStep | web_actions.py:746-848 | one get_url step with neither name nor element, one attempt, raise_exception off: one pass, then TypeError instead of False |
| WebActions.Elapsed | web_actions.py:627-652 | before attempt k at least k ticks have passed, one pause per earlier attempt |
| WebActions.ElapsedMonotone | web_actions.py:627-652 | the clock before a later attempt is never earlier |
| WebActions.StopTextHit | web_actions.py:832-835 | the post-pass scan equals the stop-text test: False without stop texts, TypeError when there is no data, else whether some stop text contains the data |
| WebActions.WebActions.CheckElementExist | web_actions.py:269-313 | raise_exception is restored afterwards; the element is returned exactly when found; WebElementNotFoundError exactly when the caller asked for it and nothing was found |
| WebActions.WebActions.Click | web_actions.py:614-655 | no attempt without a positive timeout; every attempt starts before the deadline; all but the last were transient faults; other exceptions propagate; WebElementNotFoundError exactly when raise_exception is set and no attempt clicked. The source returns None on both normal paths; the result tags which one was taken: Clicked exactly when the last attempt clicked, GaveUp once time runs out or the wait times out |
| WebActions.WebActions.SetText | web_actions.py:657-723 | self.element and the result are what the action and, when validate is set, the validation specification give |
| WebActions.WebActions.PerformSelectionAction | web_actions.py:486-565 | the result and the new self.element are those of PerformSelection, which SelectionOutcomes characterises; the primitive is the one for the last supplied option (the intended mapping), not the one the `locals()` lookup at :533-536 names, which PrimitiveAsWritten models (see Findings) |
| WebActions.WebActions.SelectElement | web_actions.py:1315-1361 | the result and the new self.element are those of SelectOrDeselect for a selection, which SelectionOutcomes characterises |
| WebActions.WebActions.DeselectElement | web_actions.py:1363-1402 | the result and the new self.element are those of SelectOrDeselect for a deselection, which SelectionOutcomes characterises |
| WebActions.WebActions.ValidateText | web_actions.py:1056-1111 | the result and the new self.element are those of the validate_text specification, which ValidateStatusIff and ValidateDataIsLastRead characterise |
| WebActions.WebActions.WaitUntilTextMatches | web_actions.py:939-974 | the result and the new self.element are those of the countdown specification, which TextMatchesIff characterises |
| WebActions.WebActions.WaitUntilElementTextChanges | web_actions.py:862-907 | the result and the new self.element are those of the two-phase specification, which TextChangedIff characterises |
| WebActions.WebActions.RepeatStepsUntilSuccess | web_actions.py:724-860 | the nested loops compute exactly Orchestrate, about which the Orchestrator lemmas state the override, pass-count, failure-message and policy properties |
| WebActions.WebActions.Quit | web_actions.py:1940-1947 | with a session, quit it and forget it, unless quitting raises; without one, do nothing |
| ExcelAutomation.WrittenCell | excel_automation.py:405-414 | after the write, cell (start_row+i, start_col+j) holds df.iloc[i, j], or nothing where that is NA |
| ExcelAutomation.WrittenBlockUnique | excel_automation.py:403-428 | the frame and the start cell determine the whole new sheet |
| ExcelAutomation.WriteIsIdempotent | excel_automation.py:403-428 | writing the same frame at the same place twice changes nothing the second time |
| ExcelAutomation.Worksheet.WriteBlock | excel_automation.py:405-414 | the nested loop writes every cell of the block with its frame value and leaves every other cell as it was |
| ExcelAutomation.Count | excel_automation.py:278-301 | the number of the first n COM answers equal to x is the size of the set of indices below n where x was answered, so at most n |
| ExcelAutomation.CountsPartition | excel_automation.py:278-301 | every call to Quit ends in exactly one of success, pause or kill |
| ExcelAutomation.ExcelAutomation.Quit | excel_automation.py:267-301 | at most retries calls; Excel quits exactly when some answer within retries succeeds, and the loop stops at the first success; otherwise all retries are used; one pause per busy answer, one forced kill per other error |
| ExcelAutomation.ExcelAutomation.WriteDataFrame | excel_automation.py:391-428 | writes the block into the given worksheet, or else into self.worksheet; with neither, AttributeError exactly when the frame has a row and a column |
| ExcelAutomation.ExcelAutomation.CloseWorkbook | excel_automation.py:234-258 | a workbook passed in is closed and its errors propagate; otherwise self.workbook, if any, is closed. The "disconnected" COM error is ignored, any other COM error only logs a warning, and other exceptions propagate |
| ConfigReader.ReadConfig | config_reader.py:33-66 | a missing tag raises KeyError when printing, else ConfigKeyMissingError; a None value raises ConfigDataBlankError when asked to; FileNotFoundError exactly when existence is checked and the path is missing; the value is returned exactly when all checks pass, and the truthy fallback replaces only None |
| ConfigReader.FallbackOnlyForNone | config_reader.py:62-65 | a stored value is never replaced, and a falsy fallback is never used |
| ConfigReader.DefaultReadIsLookup | config_reader.py:33-66 | with default flags a present tag is returned as stored, None included, and a missing one raises ConfigKeyMissingError |
| ConfigReader.GetConfigData | config_reader.py:68-80 | success exactly when both keys are present and hold mappings, which are handed on as they are; a missing OCA_XPATH raises ConfigKeyMissingError, and so does a missing NGQ_XPATH when OCA_XPATH is present, whatever it holds, since both reads come before either section is unpacked |
| ConfigReader.ReadsOnlyTwoKeys | config_reader.py:68-80 | the result depends on no key other than OCA_XPATH and NGQ_XPATH |

## Left out

- Selenium itself is an oracle. The model has no page, no `WebDriverWait`, no expected conditions, and no difference between visible and clickable elements (`is_clickable`). Driver, browser and option construction are not part of this model.
- The threaded wait, logging, `time.sleep`, and the pass-through wrappers of the web core are not modelled. None of them influences a decision, with one exception: the failure message of `repeat_steps_until_success` joins the step names, and that TypeError is modelled.
- Each attempt of `validate_text` reads `.text` several times; the model takes one reading per attempt, as if the page does not change within an attempt.
- `set_text`: errors raised by `clear` or `send_keys` are not modelled, and `validation_wait_time` is only a pause.
- WebActions.WebActions.Click: the cost of an attempt is given in whole ticks and the deadline is compared in ticks, so sub-tick timing is not modelled.
- WebActions.WebActions.RepeatStepsUntilSuccess: equal to the specification only for the first `fuel` passes. Past them the result is OutOfFuel, because a per-step `no_of_attempts` override can make the source loop forever (proved in `OverrideKeepsLooping`).
- `repeat_steps_until_success`: the dispatched methods are represented by an exception oracle and a validation oracle. Argument lookups of absent step keys are subsumed by the exception oracle. A `stop_texts` key present with the value None, and `step_wait_time`, are not modelled.
- A step name that is present but not a string (a number, say) also makes the failure message raise TypeError in the source; the model has only string names and missing ones.
- The `selection_params` fallback of `_perform_selection_action` (an empty method name) is modelled only as the SelectionNotFoundError it leads to.
- `quit` of WebActions: the console message is not modelled.
- Excel: the COM objects are oracles. Cell coordinates are kept as given; the model does not check Excel's 1-based bounds, and a COM error for a cell outside the sheet is not modelled. The truthiness of a COM object is taken as "is not None".
- Excel `quit`: `os.getlogin` and the `taskkill` command are represented by a kill count, and their failures are not modelled. The `delay` is only a pause.
- `close_workbook` leaves `self.workbook` as it was, in the model as in the source.
- Configuration: YAML parsing, the configuration file check at import time, and the field validation of the typed configuration models are not part of this model. A loaded file that is empty or not a mapping is not modelled.
- Byte strings as paths for `os.path.exists` are not modelled; strings, integers and booleans are path-like, anything else raises TypeError.

## Findings

| source | as written | input that shows it | evidently intended | confidence | as-written member | corrected member |
|---|---|---|---|---|---|---|
| web_actions.py:533-536 | the `Select` method name is found by searching `locals()` for the first local whose value equals the chosen option, so a parameter declared earlier with an equal value wins | `select_element(e, index=3, max_wait_time=3)` yields `select_by_max_wait_time`, which fails with SelectionNotFoundError; `visible_text="a", value="a"` selects by visible text instead of by value | call the primitive named after the argument that supplied the option | not executed | Selection.PrimitiveAsWritten (Selection.IndexEqualToWaitIsMisnamed, Selection.EqualTextAndValueSelectsByText) | Selection.Chosen (Selection.ChosenIsLastSupplied, Selection.SelectionOutcomes) |
