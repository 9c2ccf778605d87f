/**
 * The display-name and help-text rules of `GuiByReflection.ViewModels`:
 * an optional attribute (or a sequence of them) may carry an explicit text;
 * `GetActualGuiName` falls back to the name used in the code, and
 * `GetActualGuiHelp` to nothing. A C# `string?` is an `Option<string>`.
 */
module GuiNames {
  import opened Outcomes
  import opened DotNetText

  /** A `GuiNameAttribute` or `GuiHelpAttribute`; its `Value` is a string that may be null. */
  datatype Attr = Attr(value: Option<string>)

  /** `attr?.Value`. */
  function ExplicitText(attr: Option<Attr>): Option<string> {
    if attr.Some? then attr.value.value else None
  }

  /** The attribute carries text that is neither null nor white space. */
  predicate HasText(attr: Option<Attr>) {
    !IsNullOrWhiteSpace(ExplicitText(attr))
  }

  /** `codeName ?? "[unnamed]"`. */
  function Fallback(codeName: Option<string>): (name: string)
    ensures codeName.Some? ==> name == codeName.value
    ensures codeName.None? ==> name == "[unnamed]"
  {
    if codeName.Some? then codeName.value else "[unnamed]"
  }

  /** `GetActualGuiName(attr, codeName)`: the explicit text if it is not blank, otherwise the fallback. */
  function GuiName(attr: Option<Attr>, codeName: Option<string>): (name: string)
    ensures HasText(attr) ==> Some(name) == ExplicitText(attr)
    ensures !HasText(attr) ==> name == Fallback(codeName)
  {
    if HasText(attr) then ExplicitText(attr).value else Fallback(codeName)
  }

  /** Reference definition: the position of the first attribute with text, if any. */
  function FirstWithText(attrs: seq<Option<Attr>>): (r: Option<nat>)
    ensures r.Some? ==> r.value < |attrs| && HasText(attrs[r.value])
    ensures r.Some? ==> forall j :: 0 <= j < r.value ==> !HasText(attrs[j])
    ensures r.None? ==> forall j :: 0 <= j < |attrs| ==> !HasText(attrs[j])
  {
    if attrs == [] then None
    else if HasText(attrs[0]) then Some(0)
    else
      var rest := FirstWithText(attrs[1..]);
      if rest.Some? then Some(rest.value + 1) else None
  }

  /**
   * `GetActualGuiName(attributes, codeName)`: the text of the first
   * attribute that has some, otherwise the fallback; later attributes are
   * not looked at.
   */
  method GuiNameOf(attrs: seq<Option<Attr>>, codeName: Option<string>) returns (name: string)
    ensures FirstWithText(attrs).Some? ==> Some(name) == ExplicitText(attrs[FirstWithText(attrs).value])
    ensures FirstWithText(attrs).None? ==> name == Fallback(codeName)
  {
    var k := 0;
    while k < |attrs|
      invariant 0 <= k <= |attrs|
      invariant forall j :: 0 <= j < k ==> !HasText(attrs[j])
    {
      if HasText(attrs[k]) {
        FirstIs(attrs, k);
        return ExplicitText(attrs[k]).value;
      }
      k := k + 1;
    }
    NoneHasText(attrs);
    return Fallback(codeName);
  }

  /** `GetActualGuiHelp(attr)`: the attribute's text as it is, white space included. */
  function GuiHelp(attr: Option<Attr>): (help: Option<string>)
    ensures attr.None? ==> help.None?
    ensures attr.Some? ==> help == attr.value.value
  {
    ExplicitText(attr)
  }

  /** `GetActualGuiHelp(attributes)`: the text of the first attribute that has some, otherwise null. */
  method GuiHelpOf(attrs: seq<Option<Attr>>) returns (help: Option<string>)
    ensures FirstWithText(attrs).Some? ==> help == ExplicitText(attrs[FirstWithText(attrs).value])
    ensures FirstWithText(attrs).None? ==> help.None?
    ensures help.Some? ==> !AllWhiteSpace(help.value)
  {
    var k := 0;
    while k < |attrs|
      invariant 0 <= k <= |attrs|
      invariant forall j :: 0 <= j < k ==> !HasText(attrs[j])
    {
      if HasText(attrs[k]) {
        FirstIs(attrs, k);
        return ExplicitText(attrs[k]);
      }
      k := k + 1;
    }
    NoneHasText(attrs);
    return None;
  }

  /** The first position with text is the one before which no attribute has text. */
  lemma {:induction false} FirstIs(attrs: seq<Option<Attr>>, k: nat)
    requires k < |attrs| && HasText(attrs[k])
    requires forall j :: 0 <= j < k ==> !HasText(attrs[j])
    ensures FirstWithText(attrs) == Some(k)
    decreases k
  {
    if k > 0 {
      FirstIs(attrs[1..], k - 1);
    }
  }

  lemma {:induction false} NoneHasText(attrs: seq<Option<Attr>>)
    requires forall j :: 0 <= j < |attrs| ==> !HasText(attrs[j])
    ensures FirstWithText(attrs) == None
    decreases |attrs|
  {
    if attrs != [] {
      NoneHasText(attrs[1..]);
    }
  }

  /** With a single attribute both name overloads agree. */
  lemma NameOverloadsAgree(attr: Option<Attr>, codeName: Option<string>)
    ensures FirstWithText([attr]).Some? ==> ExplicitText(attr) == Some(GuiName(attr, codeName))
    ensures FirstWithText([attr]).None? ==> GuiName(attr, codeName) == Fallback(codeName)
  {
  }

  /**
   * The help overloads differ on blank text: a single attribute whose value
   * is white space yields that white space, the sequence holding only that
   * attribute yields null.
   */
  lemma HelpOverloadsDifferOnBlank()
    ensures GuiHelp(Some(Attr(Some(" ")))) == Some(" ")
    ensures FirstWithText([Some(Attr(Some(" ")))]) == None
  {
    assert !HasText(Some(Attr(Some(" "))));
  }
}
