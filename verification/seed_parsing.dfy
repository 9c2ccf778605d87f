/**
 * Seed entry of `MechanicsUI.ConfigurableSimulationGroupVM`: the seed text
 * box may be left blank for a random seed or hold an `int`, and
 * `SeedTextValidationRule` accepts exactly the texts the parser accepts.
 */
module SeedParsing {
  import opened Numbers
  import opened Outcomes
  import opened DotNetText

  /**
   * `TryParseSeed(seedString, out seed)`: null or blank text succeeds with no
   * seed, an `int` succeeds with that seed, anything else fails with no
   * seed.
   */
  function TryParseSeed(seedString: Option<string>): (r: (bool, Option<int>))
    ensures IsNullOrWhiteSpace(seedString) ==> r == (true, None)
    ensures !IsNullOrWhiteSpace(seedString) ==> (r.0 <==> ParseInt32(seedString.value).Some?)
    ensures r.1.Some? ==> r.0 && IsInt32(r.1.value) && ParseInt32(seedString.value) == r.1
    ensures !r.0 ==> r.1 == None
  {
    if IsNullOrWhiteSpace(seedString) then (true, None)
    else
      var parsed := ParseInt32(seedString.value);
      if parsed.Some? then (true, parsed) else (false, None)
  }

  /** The `Seed` property: the parsed seed, or none for blank or invalid text. */
  function Seed(seedString: Option<string>): (seed: Option<int>)
    ensures seed.None? <==> IsNullOrWhiteSpace(seedString) || ParseInt32(seedString.value).None?
    ensures seed.Some? ==> ParseInt32(seedString.value) == seed
  {
    var (ok, seed) := TryParseSeed(seedString);
    if ok then seed else None
  }

  /** The printed form of an `int` is never blank. */
  lemma PrintedNotBlank(v: int)
    ensures !AllWhiteSpace(IntToString(v))
  {
    var s := IntToString(v);
    var last := s[|s| - 1];
    if v < 0 {
      assert last == Digits(-v)[|Digits(-v)| - 1];
    } else {
      assert last == Digits(v)[|Digits(v)| - 1];
    }
    assert IsDigit(last) && !IsWhiteSpace(last);
  }

  /** A seed printed with `ToString` is read back as that seed. */
  lemma SeedRoundTrip(v: int)
    requires IsInt32(v)
    ensures TryParseSeed(Some(IntToString(v))) == (true, Some(v))
    ensures Seed(Some(IntToString(v))) == Some(v)
  {
    PrintedNotBlank(v);
    ToStringRoundTrip(v);
  }

  /** Text without digits gives a seed only by being blank; otherwise it is invalid. */
  lemma NoDigitsNoSeed(s: string)
    requires forall k :: 0 <= k < |s| ==> !IsDigit(s[k])
    ensures Seed(Some(s)) == None
    ensures TryParseSeed(Some(s)).0 <==> AllWhiteSpace(s)
  {
    NoDigitsNoNumber(s);
  }

  /** The value a WPF binding hands to the validation rule. */
  datatype Value = StringValue(s: string) | NullValue | OtherValue

  /** `SeedTextValidationRule.Validate`: valid exactly for a string that `TryParseSeed` accepts. */
  function Validate(value: Value): (valid: bool)
    ensures valid <==> value.StringValue? && TryParseSeed(Some(value.s)).0
  {
    match value
    case StringValue(str) => TryParseSeed(Some(str)).0
    case _ => false
  }

  /** The rule rejects a null value although the parser itself accepts null as "no seed". */
  lemma NullRuleDiffersFromParser()
    ensures !Validate(NullValue) && TryParseSeed(None) == (true, None)
  {
  }

  /** The rule accepts a string exactly when it is blank or an `int`. */
  lemma ValidateStrings(s: string)
    ensures Validate(StringValue(s)) <==> AllWhiteSpace(s) || ParseInt32(s).Some?
  {
  }
}
