/**
 * `MechanicsUI.StepsPerLeapTextBoxViewModel`: a validating text box over
 * `int` that starts at 1 and accepts only positive integers.
 */
module StepsPerLeap {
  import opened Numbers
  import opened DotNetText
  import opened TextBox

  /** The rejection message, with `typeof(int)` printed as its full name. */
  const Message: string := "Value must be a positive System.Int32."

  /**
   * `TryParseStepsPerLeap`: accept text that `int.TryParse` reads as a
   * positive number, with an empty message; reject anything else with
   * `Message`. On rejection `parsed` is what `TryParse` left there: the
   * number read, or 0 when nothing could be read.
   */
  function TryParseStepsPerLeap(s: string): (r: Parsed<int>)
    ensures r.ok <==> ParseInt32(s).Some? && ParseInt32(s).value > 0
    ensures r.ok ==> r.parsed == ParseInt32(s).value && r.message == []
    ensures !r.ok ==> r.message == Message
  {
    var v := ParseInt32(s);
    var parsed := if v.Some? then v.value else 0;
    if v.None? || !(parsed > 0) then Parsed(false, parsed, Message) else Parsed(true, parsed, [])
  }

  /** The delegates: the parser above and the default `ToString`. */
  const StepsParser: Parser<int> := Parser(TryParseStepsPerLeap, IntToString)

  /** The constructor: initial value 1. */
  function NewStepsPerLeap(): (b: Box<int>)
    ensures b.currentValue == 1 && b.textboxText == "1" && !b.hasError
    ensures Consistent(StepsParser, b)
  {
    var b := NewBox(StepsParser, 1);
    assert IntToString(1) == "1";
    PositiveReadsBack(1);
    NewBoxConsistent(StepsParser, 1);
    b
  }

  /** Every positive `int` is printed as text the parser accepts and reads back. */
  lemma PositiveReadsBack(v: int)
    requires IsInt32(v) && v > 0
    ensures ReadsBack(StepsParser, v)
  {
    ToStringRoundTrip(v);
  }

  /** The parser reads back exactly the positive values; zero and negative values are printed but rejected. */
  lemma ReadsBackIffPositive(v: int)
    requires IsInt32(v)
    ensures ReadsBack(StepsParser, v) <==> v > 0
  {
    ToStringRoundTrip(v);
  }

  /** A text edit never takes a positive value to a value below 1. */
  lemma TextEditKeepsPositive(b: Box<int>, text: string)
    requires IsInt32(b.currentValue) && b.currentValue >= 1
    ensures var b' := AssignTextboxText(StepsParser, b, text).box;
      IsInt32(b'.currentValue) && b'.currentValue >= 1
  {
  }

  /** The state after the user types each text in turn. */
  function TypeAll(b: Box<int>, texts: seq<string>): Box<int>
    decreases |texts|
  {
    if texts == [] then b else TypeAll(AssignTextboxText(StepsParser, b, texts[0]).box, texts[1..])
  }

  /**
   * If the value changes only through text edits it stays a positive `int`,
   * and the text box stays consistent with it.
   */
  lemma {:induction false} TypingKeepsPositive(b: Box<int>, texts: seq<string>)
    requires IsInt32(b.currentValue) && b.currentValue >= 1 && Consistent(StepsParser, b)
    ensures var b' := TypeAll(b, texts);
      IsInt32(b'.currentValue) && b'.currentValue >= 1 && Consistent(StepsParser, b')
    decreases |texts|
  {
    if texts != [] {
      var next := AssignTextboxText(StepsParser, b, texts[0]).box;
      TextEditKeepsPositive(b, texts[0]);
      TextEditKeepsConsistent(StepsParser, b, texts[0]);
      TypingKeepsPositive(next, texts[1..]);
    }
  }

  /** From the initial box, any sequence of edits leaves a positive value. */
  lemma FromStartStaysPositive(texts: seq<string>)
    ensures TypeAll(NewStepsPerLeap(), texts).currentValue >= 1
  {
    TypingKeepsPositive(NewStepsPerLeap(), texts);
  }

  /**
   * Assigning 0 through the `CurrentValue` setter shows the text "0" with no
   * error, although the parser rejects that text.
   */
  lemma AssigningZeroIsInconsistent(b: Box<int>)
    ensures var r := AssignCurrentValue(StepsParser, b, 0).box;
      r.textboxText == "0" && !r.hasError && !TryParseStepsPerLeap(r.textboxText).ok
    ensures !Consistent(StepsParser, AssignCurrentValue(StepsParser, b, 0).box)
  {
    assert IntToString(0) == "0";
    ToStringRoundTrip(0);
  }
}
