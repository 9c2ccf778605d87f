/**
 * `MechanicsUI.ValidationTextBoxViewModel<T>`: a text box whose text is
 * parsed into a value of type `T`. The private setters of `HasError` and
 * `TooltipText`, and `SetCurrentValue`, raise a property-changed
 * notification only when the stored value actually changes; a transition
 * returns the new state together with the notifications in the order they
 * were raised.
 */
module TextBox {
  import opened Outcomes

  /** The `PropertyChanged` notifications the view model raises. */
  datatype Notification = CurrentValueChanged | TextboxTextChanged | HasErrorChanged | TooltipTextChanged

  /** The four backing fields. */
  datatype Box<T> = Box(currentValue: T, textboxText: string, hasError: bool, tooltipText: Option<string>)

  /** What the `TryParseDelegate` reports: success, the parsed value and a message. */
  datatype Parsed<T> = Parsed(ok: bool, parsed: T, message: string)

  /** The two delegates the view model is constructed with. */
  datatype Parser<!T> = Parser(tryParse: string -> Parsed<T>, valueToString: T -> string)

  /** A state together with the notifications raised so far. */
  datatype Step<T> = Step(box: Box<T>, raised: seq<Notification>)

  /** `Environment.NewLine` on the Windows desktop the application targets. */
  const NewLine: string := "\r\n"

  /** The constructor: the text shows the initial value, with no error and no tooltip. */
  function NewBox<T>(p: Parser<T>, initialValue: T): (b: Box<T>)
    ensures b.currentValue == initialValue && b.textboxText == p.valueToString(initialValue)
    ensures !b.hasError && b.tooltipText == None
  {
    Box(initialValue, p.valueToString(initialValue), false, None)
  }

  /** The private `HasError` setter. */
  function SetHasError<T>(s: Step<T>, value: bool): (r: Step<T>)
    ensures r.box == s.box.(hasError := value)
    ensures r.raised == s.raised + When(s.box.hasError != value, HasErrorChanged)
  {
    if s.box.hasError == value then s
    else Step(s.box.(hasError := value), s.raised + [HasErrorChanged])
  }

  /** The private `TooltipText` setter. */
  function SetTooltipText<T>(s: Step<T>, value: Option<string>): (r: Step<T>)
    ensures r.box == s.box.(tooltipText := value)
    ensures r.raised == s.raised + When(s.box.tooltipText != value, TooltipTextChanged)
  {
    if s.box.tooltipText == value then s
    else Step(s.box.(tooltipText := value), s.raised + [TooltipTextChanged])
  }

  /** The tooltip of a rejected edit: the parser's message, if any, and the value that stays. */
  function RejectionTooltip(message: string, currentText: string): (tip: string)
    ensures var tail := "Current value remains '" + currentText + "'";
      |tip| >= |tail| && tip[|tip| - |tail|..] == tail
    ensures message != [] ==> |tip| >= |message| && tip[..|message|] == message
  {
    (if message == [] then [] else message + NewLine + NewLine) + "Current value remains '" + currentText + "'"
  }

  /** `SetCurrentValue` without the user-entry update: store the value, notifying only if it differs. */
  function StoreValue<T(==)>(s: Step<T>, input: T): (r: Step<T>)
    ensures r.box == s.box.(currentValue := input)
    ensures r.raised == s.raised + When(input != s.box.currentValue, CurrentValueChanged)
  {
    Step(s.box.(currentValue := input), s.raised + if input != s.box.currentValue then [CurrentValueChanged] else [])
  }

  /** `SetTextboxText` without validation: store a different text and notify; the same text is ignored. */
  function StoreText<T>(s: Step<T>, input: string): (r: Step<T>)
    ensures r.box == s.box.(textboxText := input)
    ensures r.raised == s.raised + When(input != s.box.textboxText, TextboxTextChanged)
  {
    if input == s.box.textboxText then s
    else Step(s.box.(textboxText := input), s.raised + [TextboxTextChanged])
  }

  /**
   * `SetCurrentValue(input, requiresUserEntryUpdate)`: store the value,
   * notifying only if it differs; then, when asked for, show it in the text
   * box without validating and clear the error and the tooltip, even when
   * the value did not change.
   */
  function SetCurrentValue<T(==)>(p: Parser<T>, s: Step<T>, input: T, requiresUserEntryUpdate: bool): Step<T> {
    var s1 := StoreValue(s, input);
    if !requiresUserEntryUpdate then s1
    else SetTooltipText(SetHasError(StoreText(s1, p.valueToString(input)), false), None)
  }

  /**
   * `SetTextboxText(input, requiresValidation)`: nothing happens when the
   * text is unchanged; otherwise the text is stored and, when asked for,
   * parsed. Accepted text becomes the current value and clears the error;
   * rejected text keeps the current value and sets the error with a tooltip.
   */
  function SetTextboxText<T(==)>(p: Parser<T>, s: Step<T>, input: string, requiresValidation: bool): Step<T> {
    if input == s.box.textboxText then s
    else
      var s1 := StoreText(s, input);
      if !requiresValidation then s1
      else
        var outcome := p.tryParse(input);
        if outcome.ok then
          SetTooltipText(SetHasError(SetCurrentValue(p, s1, outcome.parsed, false), false), None)
        else
          var tip := RejectionTooltip(outcome.message, p.valueToString(s1.box.currentValue));
          SetTooltipText(SetHasError(s1, true), Some(tip))
  }

  /** The public `CurrentValue` setter, from a state with no pending notifications. */
  function AssignCurrentValue<T(==)>(p: Parser<T>, b: Box<T>, value: T): (r: Step<T>)
    ensures r.box.currentValue == value && r.box.textboxText == p.valueToString(value)
    ensures !r.box.hasError && r.box.tooltipText == None
    ensures CurrentValueChanged in r.raised <==> value != b.currentValue
    ensures TextboxTextChanged in r.raised <==> p.valueToString(value) != b.textboxText
    ensures NotifiesExactly(b, r)
  {
    var r := SetCurrentValue(p, Step(b, []), value, true);
    AssignCurrentValueNotifies(p, b, value);
    r
  }

  /** The public `TextboxText` setter, from a state with no pending notifications. */
  function AssignTextboxText<T(==)>(p: Parser<T>, b: Box<T>, text: string): (r: Step<T>)
    ensures text == b.textboxText ==> r == Step(b, [])
    ensures r.box.textboxText == text
    ensures text != b.textboxText && p.tryParse(text).ok ==>
      r.box.currentValue == p.tryParse(text).parsed && !r.box.hasError && r.box.tooltipText == None
    ensures text != b.textboxText && !p.tryParse(text).ok ==>
      && r.box.currentValue == b.currentValue && r.box.hasError
      && r.box.tooltipText == Some(RejectionTooltip(p.tryParse(text).message, p.valueToString(b.currentValue)))
    ensures NotifiesExactly(b, r)
  {
    var r := SetTextboxText(p, Step(b, []), text, true);
    AssignTextboxTextNotifies(p, b, text);
    r
  }

  /** Whether the field a notification is about differs between two states. */
  predicate Differs<T(==)>(before: Box<T>, after: Box<T>, n: Notification) {
    match n
    case CurrentValueChanged => after.currentValue != before.currentValue
    case TextboxTextChanged => after.textboxText != before.textboxText
    case HasErrorChanged => after.hasError != before.hasError
    case TooltipTextChanged => after.tooltipText != before.tooltipText
  }

  /**
   * Each notification is raised once if its field differs between `before`
   * and the state reached, and not at all otherwise.
   */
  predicate NotifiesExactly<T(==)>(before: Box<T>, r: Step<T>) {
    forall n :: multiset(r.raised)[n] == if Differs(before, r.box, n) then 1 else 0
  }

  function When(flag: bool, n: Notification): seq<Notification> {
    if flag then [n] else []
  }

  lemma WhenCount(flag: bool, n: Notification)
    ensures forall m :: multiset(When(flag, n))[m] == if flag && m == n then 1 else 0
  {
  }

  /** Notifications raised once per set flag, in some order, notify exactly when the flags match the changes. */
  lemma CountsNotify<T>(before: Box<T>, r: Step<T>, value: bool, text: bool, error: bool, tooltip: bool)
    requires multiset(r.raised) == multiset(When(value, CurrentValueChanged) + When(text, TextboxTextChanged)
      + When(error, HasErrorChanged) + When(tooltip, TooltipTextChanged))
    requires value == Differs(before, r.box, CurrentValueChanged) && text == Differs(before, r.box, TextboxTextChanged)
    requires error == Differs(before, r.box, HasErrorChanged) && tooltip == Differs(before, r.box, TooltipTextChanged)
    ensures NotifiesExactly(before, r)
  {
    WhenCount(value, CurrentValueChanged);
    WhenCount(text, TextboxTextChanged);
    WhenCount(error, HasErrorChanged);
    WhenCount(tooltip, TooltipTextChanged);
  }

  lemma AssignCurrentValueNotifies<T>(p: Parser<T>, b: Box<T>, value: T)
    ensures var r := SetCurrentValue(p, Step(b, []), value, true);
      && r.box.currentValue == value && r.box.textboxText == p.valueToString(value)
      && !r.box.hasError && r.box.tooltipText == None
      && NotifiesExactly(b, r)
  {
    var r := SetCurrentValue(p, Step(b, []), value, true);
    var text := p.valueToString(value);
    assert r.raised == When(value != b.currentValue, CurrentValueChanged) + When(text != b.textboxText, TextboxTextChanged)
      + When(b.hasError, HasErrorChanged) + When(b.tooltipText != None, TooltipTextChanged);
    CountsNotify(b, r, value != b.currentValue, text != b.textboxText, b.hasError, b.tooltipText != None);
  }

  lemma AssignTextboxTextNotifies<T>(p: Parser<T>, b: Box<T>, text: string)
    ensures NotifiesExactly(b, SetTextboxText(p, Step(b, []), text, true))
  {
    if text == b.textboxText {
      CountsNotify(b, Step(b, []), false, false, false, false);
    } else if p.tryParse(text).ok {
      AcceptedNotifies(p, b, text);
    } else {
      RejectedNotifies(p, b, text);
    }
  }

  lemma AcceptedNotifies<T>(p: Parser<T>, b: Box<T>, text: string)
    requires text != b.textboxText && p.tryParse(text).ok
    ensures NotifiesExactly(b, SetTextboxText(p, Step(b, []), text, true))
  {
    var r := SetTextboxText(p, Step(b, []), text, true);
    var changed := p.tryParse(text).parsed != b.currentValue;
    var w0, w1 := When(true, TextboxTextChanged), When(changed, CurrentValueChanged);
    var w2, w3 := When(b.hasError, HasErrorChanged), When(b.tooltipText != None, TooltipTextChanged);
    AcceptedRaised(p, b, text);
    AcceptedBox(p, b, text);
    SwapFront(w0, w1, w2 + w3);
    assert w0 + w1 + w2 + w3 == w0 + w1 + (w2 + w3);
    assert w1 + w0 + w2 + w3 == w1 + w0 + (w2 + w3);
    CountsNotify(b, r, changed, true, b.hasError, b.tooltipText != None);
  }

  /** Accepted text notifies the text first, then the value, then the cleared error and tooltip. */
  lemma AcceptedRaised<T>(p: Parser<T>, b: Box<T>, text: string)
    requires text != b.textboxText && p.tryParse(text).ok
    ensures SetTextboxText(p, Step(b, []), text, true).raised
      == When(true, TextboxTextChanged) + When(p.tryParse(text).parsed != b.currentValue, CurrentValueChanged)
        + When(b.hasError, HasErrorChanged) + When(b.tooltipText != None, TooltipTextChanged)
  {
    var s1 := StoreText(Step(b, []), text);
    var s2 := SetCurrentValue(p, s1, p.tryParse(text).parsed, false);
    var s3 := SetHasError(s2, false);
    assert s3.raised == s2.raised + When(b.hasError, HasErrorChanged);
  }

  lemma AcceptedBox<T>(p: Parser<T>, b: Box<T>, text: string)
    requires text != b.textboxText && p.tryParse(text).ok
    ensures SetTextboxText(p, Step(b, []), text, true).box
      == b.(currentValue := p.tryParse(text).parsed, textboxText := text, hasError := false, tooltipText := None)
  {
  }

  lemma SwapFront(a: seq<Notification>, b: seq<Notification>, c: seq<Notification>)
    ensures multiset(a + b + c) == multiset(b + a + c)
  {
  }

  lemma RejectedNotifies<T>(p: Parser<T>, b: Box<T>, text: string)
    requires text != b.textboxText && !p.tryParse(text).ok
    ensures NotifiesExactly(b, SetTextboxText(p, Step(b, []), text, true))
  {
    var r := SetTextboxText(p, Step(b, []), text, true);
    var tip := Some(RejectionTooltip(p.tryParse(text).message, p.valueToString(b.currentValue)));
    var s1 := StoreText(Step(b, []), text);
    assert r == SetTooltipText(SetHasError(s1, true), tip);
    assert r.raised == When(false, CurrentValueChanged) + When(true, TextboxTextChanged)
      + When(!b.hasError, HasErrorChanged) + When(b.tooltipText != tip, TooltipTextChanged);
    CountsNotify(b, r, false, true, !b.hasError, b.tooltipText != tip);
  }

  /** The error flag and the tooltip go together: a tooltip is shown exactly when there is an error. */
  predicate ErrorHasTooltip<T>(b: Box<T>) {
    b.hasError <==> b.tooltipText.Some?
  }

  /** The parser accepts the printed form of `v` and reads back `v`. */
  predicate ReadsBack<T(==)>(p: Parser<T>, v: T) {
    p.tryParse(p.valueToString(v)).ok && p.tryParse(p.valueToString(v)).parsed == v
  }

  /**
   * The text box agrees with its value: the error flag is set exactly when
   * the text is rejected, and accepted text reads as the current value.
   */
  predicate Consistent<T(==)>(p: Parser<T>, b: Box<T>) {
    && ErrorHasTooltip(b)
    && (b.hasError <==> !p.tryParse(b.textboxText).ok)
    && (!b.hasError ==> p.tryParse(b.textboxText).parsed == b.currentValue)
  }

  /** A fresh text box is consistent when its initial value reads back. */
  lemma NewBoxConsistent<T>(p: Parser<T>, initialValue: T)
    requires ReadsBack(p, initialValue)
    ensures Consistent(p, NewBox(p, initialValue))
  {
  }

  /** Every edit of the text keeps the text box consistent. */
  lemma TextEditKeepsConsistent<T>(p: Parser<T>, b: Box<T>, text: string)
    requires Consistent(p, b)
    ensures Consistent(p, AssignTextboxText(p, b, text).box)
  {
  }

  /** Assigning a value whose printed form reads back keeps the text box consistent. */
  lemma AssignKeepsConsistent<T>(p: Parser<T>, b: Box<T>, value: T)
    requires ReadsBack(p, value)
    ensures Consistent(p, AssignCurrentValue(p, b, value).box)
  {
  }

  /** Both setters keep the error flag and the tooltip together, whatever the parser does. */
  lemma SettersKeepErrorHasTooltip<T>(p: Parser<T>, b: Box<T>, value: T, text: string)
    requires ErrorHasTooltip(b)
    ensures ErrorHasTooltip(AssignCurrentValue(p, b, value).box)
    ensures ErrorHasTooltip(AssignTextboxText(p, b, text).box)
  {
  }
}
