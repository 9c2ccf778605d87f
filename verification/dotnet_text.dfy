/**
 * The .NET text primitives the view models rely on: `char.IsWhiteSpace`,
 * `string.IsNullOrWhiteSpace`, `int.ToString()` and `int.TryParse(string)`
 * with its default integer style, under a culture whose signs are `-` and `+`.
 * A C# `string?` is an `Option<string>`.
 */
module DotNetText {
  import opened Numbers
  import opened Outcomes

  /** `char.IsWhiteSpace`: the Unicode separators plus the control characters TAB to CR and NEL. */
  predicate IsWhiteSpace(c: char) {
    var x := c as int;
    || (0x09 <= x <= 0x0D) || x == 0x20 || x == 0x85 || x == 0xA0 || x == 0x1680
    || (0x2000 <= x <= 0x200A) || x == 0x2028 || x == 0x2029 || x == 0x202F || x == 0x205F
    || x == 0x3000
  }

  predicate AllWhiteSpace(s: string) {
    forall i :: 0 <= i < |s| ==> IsWhiteSpace(s[i])
  }

  /** `string.IsNullOrWhiteSpace`. */
  predicate IsNullOrWhiteSpace(s: Option<string>) {
    s.None? || AllWhiteSpace(s.value)
  }

  /** The white space that integer parsing skips: TAB to CR and the space. */
  predicate IsNumberWhite(c: char) {
    (0x09 <= c as int <= 0x0D) || c == ' '
  }

  predicate IsDigit(c: char) {
    '0' <= c <= '9'
  }

  function DigitValue(c: char): nat
    requires IsDigit(c)
  {
    c as int - '0' as int
  }

  function DigitChar(d: nat): (c: char)
    requires d < 10
    ensures IsDigit(c) && DigitValue(c) == d
  {
    ('0' as int + d) as char
  }

  /** How many characters from position `i` on satisfy `IsNumberWhite`. */
  function WhiteRun(s: string, i: nat): (n: nat)
    requires i <= |s|
    ensures i + n <= |s|
    ensures forall k :: i <= k < i + n ==> IsNumberWhite(s[k])
    ensures i + n < |s| ==> !IsNumberWhite(s[i + n])
    decreases |s| - i
  {
    if i < |s| && IsNumberWhite(s[i]) then 1 + WhiteRun(s, i + 1) else 0
  }

  /** How many characters from position `i` on are decimal digits. */
  function DigitRun(s: string, i: nat): (n: nat)
    requires i <= |s|
    ensures i + n <= |s|
    ensures forall k :: i <= k < i + n ==> IsDigit(s[k])
    ensures i + n < |s| ==> !IsDigit(s[i + n])
    decreases |s| - i
  {
    if i < |s| && IsDigit(s[i]) then 1 + DigitRun(s, i + 1) else 0
  }

  /** The value of a run of decimal digits, most significant first. */
  function DigitsValue(s: string): nat
    requires forall k :: 0 <= k < |s| ==> IsDigit(s[k])
  {
    if s == [] then 0 else 10 * DigitsValue(s[..|s| - 1]) + DigitValue(s[|s| - 1])
  }

  /**
   * `int.TryParse(s, out v)` with `NumberStyles.Integer`: leading white
   * space, an optional sign, at least one digit, trailing white space, and
   * then only NUL characters; the value must fit in 32 bits.
   */
  function ParseInt32(s: string): (r: Option<int>)
    ensures r.Some? ==> IsInt32(r.value)
    ensures r.Some? ==> exists k :: 0 <= k < |s| && IsDigit(s[k])
  {
    var lead := WhiteRun(s, 0);
    var signed := lead < |s| && (s[lead] == '-' || s[lead] == '+');
    var start := if signed then lead + 1 else lead;
    var digits := DigitRun(s, start);
    var stop := start + digits;
    var trail := WhiteRun(s, stop);
    if digits == 0 then None
    else if exists k :: stop + trail <= k < |s| && s[k] as int != 0 then None
    else
      InRange(Signed(signed && s[lead] == '-', DigitsValue(s[start..stop])))
  }

  /** A magnitude with its sign. */
  function Signed(negative: bool, m: nat): int {
    if negative then -(m as int) else m
  }

  /** A value that fits in 32 bits, or nothing. */
  function InRange(v: int): (r: Option<int>)
    ensures r.Some? <==> IsInt32(v)
    ensures r.Some? ==> r.value == v
  {
    if IsInt32(v) then Some(v) else None
  }

  /** The decimal digits of a natural number, without leading zeros. */
  function Digits(n: nat): (s: string)
    ensures |s| >= 1 && forall k :: 0 <= k < |s| ==> IsDigit(s[k])
    ensures DigitsValue(s) == n
  {
    if n < 10 then [DigitChar(n)]
    else
      var front := Digits(n / 10);
      var s := front + [DigitChar(n % 10)];
      assert s[..|s| - 1] == front;
      s
  }

  /** `int.ToString()`: a minus sign for negative values, then the digits. */
  function IntToString(v: int): (s: string)
    ensures |s| >= 1
    ensures s[0] == '-' <==> v < 0
  {
    if v < 0 then "-" + Digits(-v) else Digits(v)
  }

  /** Parsing what `ToString` printed gives back the number, also with number white space around it. */
  lemma PaddedRoundTrip(before: string, v: int, after: string)
    requires IsInt32(v)
    requires forall k :: 0 <= k < |before| ==> IsNumberWhite(before[k])
    requires forall k :: 0 <= k < |after| ==> IsNumberWhite(after[k])
    ensures ParseInt32(before + IntToString(v) + after) == Some(v)
  {
    if v < 0 {
      assert before + IntToString(v) + after == before + ("-" + Digits(-v)) + after;
      ParseComposed(before + IntToString(v) + after, before, "-", Digits(-v), after);
    } else {
      assert before + IntToString(v) + after == before + ("" + Digits(v)) + after;
      ParseComposed(before + IntToString(v) + after, before, "", Digits(v), after);
    }
  }

  /** White space, an optional sign, digits and white space parse as the signed value of the digits. */
  lemma ParseComposed(s: string, before: string, sign: string, digits: string, after: string)
    requires s == before + (sign + digits) + after
    requires forall k :: 0 <= k < |before| ==> IsNumberWhite(before[k])
    requires sign == "" || sign == "-" || sign == "+"
    requires |digits| >= 1 && forall k :: 0 <= k < |digits| ==> IsDigit(digits[k])
    requires forall k :: 0 <= k < |after| ==> IsNumberWhite(after[k])
    ensures ParseInt32(s) == InRange(Signed(sign == "-", DigitsValue(digits)))
  {
    var lead := |before|;
    var start := lead + |sign|;
    var stop := start + |digits|;
    assert && lead < |s| && WhiteRun(s, 0) == lead
           && (start == if s[lead] == '-' || s[lead] == '+' then lead + 1 else lead)
           && start < stop <= |s| && DigitRun(s, start) == stop - start
           && stop + WhiteRun(s, stop) == |s|
           && (sign == "-" <==> s[lead] == '-')
           && DigitsValue(s[start..stop]) == DigitsValue(digits)
    by {
      ComposedLead(before, sign + digits, after);
      ComposedDigits(before + sign, digits, after);
      Regroup(before, sign, digits, after);
      assert s[lead] == (sign + digits)[0];
      assert s[start..stop] == digits;
    }
    ParseWhole(s, lead, start, stop, sign == "-", DigitsValue(digits));
  }

  lemma Regroup(a: string, b: string, c: string, d: string)
    ensures a + (b + c) + d == (a + b) + c + d
  {
  }

  /** Leading number white space ends where the non-white middle part begins. */
  lemma ComposedLead(before: string, middle: string, after: string)
    requires forall k :: 0 <= k < |before| ==> IsNumberWhite(before[k])
    requires |middle| >= 1 && !IsNumberWhite(middle[0])
    ensures WhiteRun(before + middle + after, 0) == |before|
  {
    var s := before + middle + after;
    forall k | 0 <= k < |before|
      ensures IsNumberWhite(s[k])
    {
      assert s[k] == before[k];
    }
    assert s[|before|] == middle[0];
    WhiteRunStops(s, 0, |before|);
  }

  /** A digit run followed by number white space to the end. */
  lemma ComposedDigits(front: string, digits: string, after: string)
    requires forall k :: 0 <= k < |digits| ==> IsDigit(digits[k])
    requires forall k :: 0 <= k < |after| ==> IsNumberWhite(after[k])
    ensures DigitRun(front + digits + after, |front|) == |digits|
    ensures |front| + |digits| + WhiteRun(front + digits + after, |front| + |digits|) == |front + digits + after|
  {
    var s := front + digits + after;
    var start := |front|;
    var stop := start + |digits|;
    forall k | start <= k < stop
      ensures IsDigit(s[k])
    {
      assert s[k] == digits[k - start];
    }
    forall k | stop <= k < |s|
      ensures IsNumberWhite(s[k])
    {
      assert s[k] == after[k - stop];
    }
    DigitRunStops(s, start, |digits|);
    WhiteRunToEnd(s, stop);
  }

  /** When the trailing white space reaches the end, the parse is the signed value of the digit run. */
  lemma ParseWhole(s: string, lead: nat, start: nat, stop: nat, negative: bool, m: nat)
    requires lead < |s| && WhiteRun(s, 0) == lead
    requires start == if s[lead] == '-' || s[lead] == '+' then lead + 1 else lead
    requires start < stop <= |s| && DigitRun(s, start) == stop - start
    requires stop + WhiteRun(s, stop) == |s|
    requires negative <==> s[lead] == '-'
    requires DigitsValue(s[start..stop]) == m
    ensures ParseInt32(s) == InRange(Signed(negative, m))
  {
  }

  lemma WhiteRunStops(s: string, i: nat, n: nat)
    requires i + n < |s| && !IsNumberWhite(s[i + n])
    requires forall k :: i <= k < i + n ==> IsNumberWhite(s[k])
    ensures WhiteRun(s, i) == n
    decreases n
  {
    if n > 0 {
      WhiteRunStops(s, i + 1, n - 1);
    }
  }

  lemma WhiteRunToEnd(s: string, i: nat)
    requires i <= |s|
    requires forall k :: i <= k < |s| ==> IsNumberWhite(s[k])
    ensures i + WhiteRun(s, i) == |s|
    decreases |s| - i
  {
    if i < |s| {
      WhiteRunToEnd(s, i + 1);
    }
  }

  lemma DigitRunStops(s: string, i: nat, n: nat)
    requires i + n <= |s| && (i + n < |s| ==> !IsDigit(s[i + n]))
    requires forall k :: i <= k < i + n ==> IsDigit(s[k])
    ensures DigitRun(s, i) == n
    decreases n
  {
    if n > 0 {
      DigitRunStops(s, i + 1, n - 1);
    }
  }

  /** `ToString` followed by `TryParse` is the identity on `int`. */
  lemma ToStringRoundTrip(v: int)
    requires IsInt32(v)
    ensures ParseInt32(IntToString(v)) == Some(v)
  {
    PaddedRoundTrip("", v, "");
    assert "" + IntToString(v) + "" == IntToString(v);
  }

  /** Text without any digit, in particular empty or blank text, never parses. */
  lemma NoDigitsNoNumber(s: string)
    requires forall k :: 0 <= k < |s| ==> !IsDigit(s[k])
    ensures ParseInt32(s) == None
  {
  }
}
