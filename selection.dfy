/**
 * Selection dispatch (`select_element`, `deselect_element`,
 * `_perform_selection_action`): which `Select` primitive runs for the
 * `index`, `visible_text` and `value` keyword arguments.
 */
module Selection {
  import opened Wrappers
  import opened Resolution

  datatype SelectAction = Select | Deselect

  /** One supplied keyword argument; its constructor names the `*_by_<kind>` primitive. */
  datatype SelectionArg = IndexArg(index: int) | VisibleTextArg(text: string) | ValueArg(value: string)

  /** A call `select_by_<kind>(arg)` or `deselect_by_<kind>(arg)`. */
  datatype Primitive = Primitive(action: SelectAction, arg: SelectionArg)

  /** Python truthiness of each argument: None, 0 and "" are falsy. */
  predicate IndexTruthy(index: Option<int>) { index.Some? && index.value != 0 }
  predicate TextTruthy(s: Option<string>) { s.Some? && s.value != "" }

  /** `not any([index, visible_text, value])`: the guard that raises ParameterMissingError. */
  predicate ParametersMissing(index: Option<int>, visibleText: Option<string>, value: Option<string>) {
    !(IndexTruthy(index) || TextTruthy(visibleText) || TextTruthy(value))
  }

  /** The list `[index, visible_text, value]` the dispatch loop walks, in that order. */
  function Options(index: Option<int>, visibleText: Option<string>, value: Option<string>): (opts: seq<Option<SelectionArg>>)
    ensures |opts| == 3
    ensures opts[0].Some? <==> index.Some?
    ensures opts[1].Some? <==> visibleText.Some?
    ensures opts[2].Some? <==> value.Some?
  {
    [ if index.Some? then Some(IndexArg(index.value)) else None,
      if visibleText.Some? then Some(VisibleTextArg(visibleText.value)) else None,
      if value.Some? then Some(ValueArg(value.value)) else None ]
  }

  /** `arg` is the last option that is not None. */
  predicate IsLastSupplied(opts: seq<Option<SelectionArg>>, arg: SelectionArg) {
    exists i :: 0 <= i < |opts| && opts[i] == Some(arg) && forall j :: i < j < |opts| ==> opts[j].None?
  }

  /** The option the dispatch loop ends on: the last one that is not None. */
  function Chosen(opts: seq<Option<SelectionArg>>): Option<SelectionArg> {
    if |opts| == 0 then None
    else if opts[|opts| - 1].Some? then opts[|opts| - 1]
    else Chosen(opts[..|opts| - 1])
  }

  /** Chosen picks the last supplied option, and nothing only when none is supplied. */
  lemma {:induction false} ChosenIsLastSupplied(opts: seq<Option<SelectionArg>>)
    ensures Chosen(opts).None? <==> forall i :: 0 <= i < |opts| ==> opts[i].None?
    ensures Chosen(opts).Some? ==> IsLastSupplied(opts, Chosen(opts).value)
    decreases |opts|
  {
    if |opts| == 0 {
    } else if opts[|opts| - 1].Some? {
      var last := |opts| - 1;
      assert opts[last] == Some(Chosen(opts).value);
    } else {
      var init := opts[..|opts| - 1];
      assert Chosen(opts) == Chosen(init);
      assert forall i :: 0 <= i < |init| ==> init[i] == opts[i];
      ChosenIsLastSupplied(init);
      if Chosen(init).Some? {
        var i :| 0 <= i < |init| && init[i] == Chosen(init) && forall j :: i < j < |init| ==> init[j].None?;
        assert opts[i] == Some(Chosen(opts).value);
        assert forall j :: i < j < |opts| ==> opts[j].None?;
      }
    }
  }

  /**
   * The order of the list makes `value` beat `visible_text`, and both beat
   * `index`, whichever of them is supplied (falsy values included).
   */
  lemma {:induction false} OptionsPriority(index: Option<int>, visibleText: Option<string>, value: Option<string>)
    ensures Chosen(Options(index, visibleText, value)) ==
      if value.Some? then Some(ValueArg(value.value))
      else if visibleText.Some? then Some(VisibleTextArg(visibleText.value))
      else if index.Some? then Some(IndexArg(index.value))
      else None
  {
    var opts := Options(index, visibleText, value);
    var two, one := opts[..2], opts[..1];
    assert two[..1] == one && one[..0] == [];
    assert Chosen(one) == opts[0];
    assert Chosen(two) == if opts[1].Some? then opts[1] else opts[0];
    assert Chosen(opts) == if opts[2].Some? then opts[2] else Chosen(two);
  }

  /**
   * The dispatch loop: every option that is not None overwrites the choice,
   * so the last one wins; with none supplied nothing is chosen.
   */
  method LastSupplied(opts: seq<Option<SelectionArg>>) returns (chosen: Option<SelectionArg>)
    ensures chosen.None? <==> forall i :: 0 <= i < |opts| ==> opts[i].None?
    ensures chosen.Some? ==> IsLastSupplied(opts, chosen.value)
    ensures chosen == Chosen(opts)
  {
    chosen := None;
    var at := 0;
    for k := 0 to |opts|
      invariant chosen.None? <==> forall i :: 0 <= i < k ==> opts[i].None?
      invariant chosen.Some? ==> at < k && opts[at] == chosen && forall j :: at < j < k ==> opts[j].None?
      invariant chosen == Chosen(opts[..k])
    {
      assert opts[..k + 1][..k] == opts[..k];
      if opts[k].Some? {
        chosen := opts[k];
        at := k;
      }
    }
    assert opts[..|opts|] == opts;
  }

  /** The guard passes only when some option is supplied, so the loop always chooses one then. */
  lemma {:induction false} GuardImpliesChoice(index: Option<int>, visibleText: Option<string>, value: Option<string>)
    requires !ParametersMissing(index, visibleText, value)
    ensures exists i :: 0 <= i < 3 && Options(index, visibleText, value)[i].Some?
  {
    var opts := Options(index, visibleText, value);
    if IndexTruthy(index) { assert opts[0].Some?; }
    else if TextTruthy(visibleText) { assert opts[1].Some?; }
    else { assert opts[2].Some?; }
  }

  /** `index=0` on its own is falsy and rejected, although 0 is a valid option index. */
  lemma ZeroIndexAloneIsMissing()
    ensures ParametersMissing(Some(0), None, None)
    ensures ParametersMissing(None, Some(""), None)
  {
  }

  /**
   * `index=0` together with a truthy `value` passes the guard, and the value wins,
   * as the later option in the list.
   */
  lemma {:induction false} ValueWinsOverIndex(i: int, v: string)
    requires v != ""
    ensures !ParametersMissing(Some(i), None, Some(v))
    ensures IsLastSupplied(Options(Some(i), None, Some(v)), ValueArg(v))
    ensures !IsLastSupplied(Options(Some(i), None, Some(v)), IndexArg(i))
  {
    var opts := Options(Some(i), None, Some(v));
    assert opts[2] == Some(ValueArg(v));
  }

  // --------------------------------------------------------- the whole call

  /** What a selection call ends with: its outcome and the new `self.element`. */
  datatype Selected = Selected(outcome: Result<(), WebError>, element: Option<Element>)

  /**
   * `_perform_selection_action`: resolve the element into `self.element`; when
   * one is found, wrap it in `Select` (which raises, outside the `try`, unless
   * `isSelect` says it is a <select>), then run the primitive for the chosen
   * option (`apply` says whether the `Select` call succeeds). With no option
   * the method name is empty and the lookup fails like a failing primitive.
   * A missing element is skipped.
   */
  function PerformSelection(action: SelectAction, timeout: int, opts: seq<Option<SelectionArg>>, polled: Option<Element>,
                            raiseFlag: bool, isSelect: Element -> bool, apply: Primitive -> bool, element: Option<Element>): Selected
  {
    match Resolve(timeout, polled, raiseFlag)
    case Err(e) => Selected(Err(e), element)
    case Ok(None) => Selected(Ok(()), None)
    case Ok(Some(el)) =>
      if !isSelect(el) then Selected(Err(UnexpectedTagName), Some(el))
      else match Chosen(opts)
      case None => Selected(Err(SelectionNotFound), Some(el))
      case Some(arg) => Selected(if apply(Primitive(action, arg)) then Ok(()) else Err(SelectionNotFound), Some(el))
  }

  /** `select_element` / `deselect_element`: the guard, then the selection action. */
  function SelectOrDeselect(action: SelectAction, timeout: int, index: Option<int>, visibleText: Option<string>, value: Option<string>,
                            polled: Option<Element>, raiseFlag: bool, isSelect: Element -> bool, apply: Primitive -> bool,
                            element: Option<Element>): Selected
  {
    if ParametersMissing(index, visibleText, value) then Selected(Err(ParameterMissing), element)
    else PerformSelection(action, timeout, Options(index, visibleText, value), polled, raiseFlag, isSelect, apply, element)
  }

  /**
   * ParameterMissingError exactly when all three arguments are falsy, before
   * any lookup; otherwise a found element is stored, one that is not a
   * <select> raises UnexpectedTagNameException, and a <select> gets the
   * primitive for the last supplied argument, the call failing with
   * SelectionNotFoundError exactly when that primitive fails; an element that
   * is not found is skipped silently unless the instance escalates.
   */
  lemma SelectionOutcomes(action: SelectAction, timeout: int, index: Option<int>, visibleText: Option<string>, value: Option<string>,
                          polled: Option<Element>, raiseFlag: bool, isSelect: Element -> bool, apply: Primitive -> bool,
                          element: Option<Element>)
    ensures var s := SelectOrDeselect(action, timeout, index, visibleText, value, polled, raiseFlag, isSelect, apply, element);
      && (s.outcome == Err(ParameterMissing) <==> ParametersMissing(index, visibleText, value))
      && (ParametersMissing(index, visibleText, value) ==> s.element == element)
      && (s.outcome.Err? ==> s.outcome.error in {ParameterMissing, ElementNotFound, UnexpectedTagName, SelectionNotFound})
      && (!ParametersMissing(index, visibleText, value) && !Found(timeout, polled) ==>
            s.outcome == (if raiseFlag then Err(ElementNotFound) else Ok(())))
      && (!ParametersMissing(index, visibleText, value) && Found(timeout, polled) ==>
            s.element == polled
            && (s.outcome == Err(UnexpectedTagName) <==> !isSelect(polled.value))
            && (s.outcome.Ok? <==>
                  (isSelect(polled.value) && exists arg :: IsLastSupplied(Options(index, visibleText, value), arg) && apply(Primitive(action, arg))))
            && (s.outcome.Err? && isSelect(polled.value) ==> s.outcome.error == SelectionNotFound))
  {
    var opts := Options(index, visibleText, value);
    if !ParametersMissing(index, visibleText, value) {
      GuardImpliesChoice(index, visibleText, value);
      ChosenIsLastSupplied(opts);
      if Found(timeout, polled) {
        var arg := Chosen(opts).value;
        forall a | IsLastSupplied(opts, a) ensures a == arg {
          LastSuppliedUnique(opts, a, arg);
        }
      }
    }
  }

  /** Only one option can be the last one supplied. */
  lemma LastSuppliedUnique(opts: seq<Option<SelectionArg>>, a: SelectionArg, b: SelectionArg)
    requires IsLastSupplied(opts, a) && IsLastSupplied(opts, b)
    ensures a == b
  {
    var i :| 0 <= i < |opts| && opts[i] == Some(a) && forall j :: i < j < |opts| ==> opts[j].None?;
    var k :| 0 <= k < |opts| && opts[k] == Some(b) && forall j :: k < j < |opts| ==> opts[j].None?;
    assert i == k;
  }

  // ------------------------------------------ the name lookup as written

  /** The values the lookup compares: Python ints and strings (never equal to each other). */
  datatype PyValue = PyInt(i: int) | PyStr(s: string)

  function ArgValue(arg: SelectionArg): PyValue {
    match arg
    case IndexArg(i) => PyInt(i)
    case VisibleTextArg(t) => PyStr(t)
    case ValueArg(v) => PyStr(v)
  }

  /** The `action` string the dispatch receives. */
  function ActionName(action: SelectAction): string {
    if action == Select then "select_element" else "deselect_element"
  }

  /**
   * The name `[i for i, a in locals().items() if a == available_option][0]`
   * yields: the first local, in the order the function's parameters are
   * declared, whose value equals the chosen option. `self` equals no option;
   * `available_option` itself comes after the parameters.
   */
  function LocalNameOf(element: string, action: SelectAction, maxWait: int, index: Option<int>, visibleText: Option<string>,
                       value: Option<string>, arg: SelectionArg): string
  {
    var v := ArgValue(arg);
    if v == PyStr(element) then "element"
    else if v == PyStr(ActionName(action)) then "action"
    else if v == PyInt(maxWait) then "max_wait_time"
    else if index.Some? && v == PyInt(index.value) then "index"
    else if visibleText.Some? && v == PyStr(visibleText.value) then "visible_text"
    else if value.Some? && v == PyStr(value.value) then "value"
    else "available_option"
  }

  /**
   * The primitive the source calls, as written: `<action>_by_<name>` with the
   * chosen option's value, or None when `Select` has no method of that name
   * (the call then fails with SelectionNotFoundError).
   */
  function PrimitiveAsWritten(element: string, action: SelectAction, maxWait: int, index: Option<int>, visibleText: Option<string>,
                              value: Option<string>): Option<Primitive>
  {
    match Chosen(Options(index, visibleText, value))
    case None => None
    case Some(arg) =>
      var name := LocalNameOf(element, action, maxWait, index, visibleText, value, arg);
      if name == "index" && ArgValue(arg).PyInt? then Some(Primitive(action, IndexArg(ArgValue(arg).i)))
      else if name == "visible_text" && ArgValue(arg).PyStr? then Some(Primitive(action, VisibleTextArg(ArgValue(arg).s)))
      else if name == "value" && ArgValue(arg).PyStr? then Some(Primitive(action, ValueArg(ArgValue(arg).s)))
      else None
  }

  /**
   * As written, `index` equal to `max_wait_time` is looked up under the name
   * "max_wait_time", so no primitive exists although an index was supplied.
   */
  lemma IndexEqualToWaitIsMisnamed()
    ensures LocalNameOf("sel", Select, 3, Some(3), None, None, IndexArg(3)) == "max_wait_time"
    ensures PrimitiveAsWritten("sel", Select, 3, Some(3), None, None).None?
    ensures Chosen(Options(Some(3), None, None)) == Some(IndexArg(3))
  {
    assert Options(Some(3), None, None)[2].None? && Options(Some(3), None, None)[1].None?;
    assert Options(Some(3), None, None)[..2][..1] == [Some(IndexArg(3))];
  }

  /**
   * As written, a `value` equal to `visible_text` is looked up under the name
   * "visible_text", so it selects by visible text instead of by value.
   */
  lemma EqualTextAndValueSelectsByText()
    ensures PrimitiveAsWritten("sel", Select, 300, None, Some("a"), Some("a")) == Some(Primitive(Select, VisibleTextArg("a")))
    ensures Chosen(Options(None, Some("a"), Some("a"))) == Some(ValueArg("a"))
  {
  }

  /**
   * When the chosen option's value differs from the element, the action name,
   * the wait and the other options, the written lookup finds the intended
   * name and calls the intended primitive.
   */
  lemma AsWrittenAgreesWhenDistinct(element: string, action: SelectAction, maxWait: int, index: Option<int>,
                                    visibleText: Option<string>, value: Option<string>)
    requires Chosen(Options(index, visibleText, value)).Some?
    requires var v := ArgValue(Chosen(Options(index, visibleText, value)).value);
      && v != PyStr(element) && v != PyStr(ActionName(action)) && v != PyInt(maxWait)
      && (forall i :: 0 <= i < 3 && Options(index, visibleText, value)[i].Some? && Options(index, visibleText, value)[i] != Chosen(Options(index, visibleText, value)) ==>
            ArgValue(Options(index, visibleText, value)[i].value) != v)
    ensures PrimitiveAsWritten(element, action, maxWait, index, visibleText, value) == Some(Primitive(action, Chosen(Options(index, visibleText, value)).value))
  {
    var opts := Options(index, visibleText, value);
    var arg := Chosen(opts).value;
    ChosenIsLastSupplied(opts);
    var k :| 0 <= k < |opts| && opts[k] == Some(arg) && forall j :: k < j < |opts| ==> opts[j].None?;
    if k == 0 {
      assert arg == IndexArg(index.value);
    } else if k == 1 {
      assert arg == VisibleTextArg(visibleText.value);
      assert index.Some? ==> opts[0] != Chosen(opts);
    } else {
      assert arg == ValueArg(value.value);
      assert index.Some? ==> opts[0] != Chosen(opts);
    }
  }
}
