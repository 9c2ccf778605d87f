/**
 * `MechanicsConsole.ColorSpacing`: which hue spacings visit every byte value,
 * and the circular distances between the first hues of a spacing.
 */
module ColorSpacing {
  import opened Numbers

  /** One step of the walk: `val += spacing; val %= 256;` in 32-bit C# arithmetic. */
  function NextValue(val: int, spacing: int): int
    requires IsInt32(spacing)
  {
    CsRem(Wrap32(val + spacing), 256)
  }

  /** The first `n` values the walk produces from 0. */
  function Walk(spacing: int, n: nat): (vs: seq<int>)
    requires IsInt32(spacing)
    ensures |vs| == n
  {
    if n == 0 then []
    else
      var front := Walk(spacing, n - 1);
      front + [NextValue(if n == 1 then 0 else front[n - 2], spacing)]
  }

  predicate AllDifferent(s: seq<int>) {
    forall a, b :: 0 <= a < b < |s| ==> s[a] != s[b]
  }

  lemma {:induction false} WalkPrefix(spacing: int, k: nat, n: nat)
    requires IsInt32(spacing) && k <= n
    ensures Walk(spacing, n)[..k] == Walk(spacing, k)
    decreases n
  {
    if k < n {
      WalkPrefix(spacing, k, n - 1);
      assert Walk(spacing, n)[..n - 1] == Walk(spacing, n - 1);
      assert Walk(spacing, n)[..k] == Walk(spacing, n)[..n - 1][..k];
    }
  }

  /**
   * `HitsAllValuesIn256`: walk 256 steps, returning false as soon as a value
   * repeats. True exactly when the 256 values are pairwise different.
   */
  method HitsAllValuesIn256(spacing: int) returns (r: bool)
    requires IsInt32(spacing)
    ensures r <==> AllDifferent(Walk(spacing, 256))
  {
    var seen: set<int> := {};
    var val := 0;
    var i := 0;
    ghost var vs: seq<int> := [];
    while i < 256
      invariant 0 <= i <= 256 && vs == Walk(spacing, i)
      invariant val == (if i == 0 then 0 else vs[i - 1])
      invariant forall x :: x in seen <==> x in vs
      invariant AllDifferent(vs)
    {
      val := NextValue(val, spacing);
      if val in seen {
        ghost var k :| 0 <= k < i && vs[k] == val;
        ghost var w := vs + [val];
        assert w == Walk(spacing, i + 1);
        WalkPrefix(spacing, i + 1, 256);
        assert Walk(spacing, 256)[k] == w[k] && Walk(spacing, 256)[i] == w[i];
        return false;
      }
      seen := seen + {val};
      vs := vs + [val];
      i := i + 1;
    }
    r := true;
  }

  /** For a spacing that cannot overflow, the `k`-th value (from 0) is `(k+1)·spacing mod 256`. */
  lemma {:induction false} WalkClosedForm(spacing: int, n: nat)
    requires 0 <= spacing <= Int32Max - 255
    ensures forall k :: 0 <= k < n ==> Walk(spacing, n)[k] == spacing * (k + 1) % 256
  {
    if n > 0 {
      WalkClosedForm(spacing, n - 1);
      var front := Walk(spacing, n - 1);
      var w := Walk(spacing, n);
      assert w == front + [NextValue(if n == 1 then 0 else front[n - 2], spacing)];
      forall k | 0 <= k < n
        ensures w[k] == spacing * (k + 1) % 256
      {
        if k < n - 1 {
          assert w[k] == front[k];
        } else if n == 1 {
          assert w[k] == NextValue(0, spacing);
        } else {
          assert front[n - 2] == spacing * (n - 1) % 256;
          ModAddConstant(spacing * (n - 1), spacing);
          assert spacing * (n - 1) + spacing == spacing * n;
        }
      }
    }
  }

  lemma ModAddConstant(x: int, s: int)
    requires 0 <= x && 0 <= s <= Int32Max - 255
    ensures NextValue(x % 256, s) == (x + s) % 256
  {
    assert 0 <= x % 256 + s <= Int32Max;
    assert (x % 256 + s) % 256 == (x + s) % 256;
  }

  /** Every value of a walk with a non-negative spacing that cannot overflow is a byte. */
  lemma WalkValuesAreBytes(spacing: int, n: nat)
    requires 0 <= spacing <= Int32Max - 255
    ensures forall k :: 0 <= k < n ==> 0 <= Walk(spacing, n)[k] <= 255
  {
    WalkClosedForm(spacing, n);
  }

  // ----- odd spacings -----

  /** If `m | x` then `x = m·q` for the quotient `q`. */
  lemma ModUnique(x: int, m: int, q: int, r: int)
    requires m > 0 && 0 <= r < m && x == m * q + r
    ensures x % m == r && x / m == q
  {
    var q' := x / m;
    var r' := x % m;
    assert x == m * q' + r';
    assert m * (q - q') == r' - r;
    if q > q' {
      MulAtLeast(m, q - q');
    } else if q < q' {
      MulAtLeast(m, q' - q);
    }
  }

  lemma MulAtLeast(m: int, k: int)
    requires m > 0 && k >= 1
    ensures m * k >= m
  {
  }

  lemma DoubleMod(x: int, q: int)
    requires q > 0
    ensures (2 * x) % (2 * q) == 2 * (x % q)
  {
    var t := x / q;
    var r := x % q;
    assert x == q * t + r;
    assert 2 * x == (2 * q) * t + 2 * r;
    ModUnique(2 * x, 2 * q, t, 2 * r);
  }

  lemma OddModEven(x: int, q: int)
    requires q > 0 && x % 2 == 1
    ensures x % (2 * q) != 0
  {
    var t := x / (2 * q);
    var r := x % (2 * q);
    assert x == (2 * q) * t + r;
    assert x == 2 * (q * t) + r;
    if r == 0 {
      ModUnique(x, 2, q * t, 0);
    }
  }

  /** An odd factor cannot supply powers of two: `s·d` is divisible by `2^m` only when `d` is. */
  lemma {:induction false} OddFactor(s: int, d: int, m: nat)
    requires s % 2 == 1 && d % Pow2(m) != 0
    ensures (s * d) % Pow2(m) != 0
    decreases m
  {
    if m > 0 {
      var q := Pow2(m - 1);
      if d % 2 == 1 {
        OddTimesOdd(s, d);
        OddModEven(s * d, q);
      } else {
        var e := d / 2;
        assert d == 2 * e;
        DoubleMod(e, q);
        assert e % q != 0;
        OddFactor(s, e, m - 1);
        assert s * d == 2 * (s * e);
        DoubleMod(s * e, q);
      }
    }
  }

  lemma OddTimesOdd(s: int, d: int)
    requires s % 2 == 1 && d % 2 == 1
    ensures (s * d) % 2 == 1
  {
    var a := s / 2;
    var b := d / 2;
    assert s == 2 * a + 1 && d == 2 * b + 1;
    assert s * d == 2 * (2 * a * b + a + b) + 1;
    ModUnique(s * d, 2, 2 * a * b + a + b, 1);
  }

  /**
   * A spacing between 1 and 255 visits all 256 values exactly when it is
   * odd, that is, coprime to 256.
   */
  lemma HitsAllIffOdd(spacing: int)
    requires 1 <= spacing <= 255
    ensures AllDifferent(Walk(spacing, 256)) <==> spacing % 2 == 1
  {
    if spacing % 2 == 1 {
      OddHitsAll(spacing);
    } else {
      EvenRepeats(spacing);
    }
  }

  lemma OddHitsAll(spacing: int)
    requires 1 <= spacing <= 255 && spacing % 2 == 1
    ensures AllDifferent(Walk(spacing, 256))
  {
    var w := Walk(spacing, 256);
    WalkClosedForm(spacing, 256);
    forall a, b | 0 <= a < b < 256
      ensures w[a] != w[b]
    {
      OddDifference(spacing, a, b);
    }
  }

  /** An even spacing comes back to its first value after 128 steps. */
  lemma EvenRepeats(spacing: int)
    requires 1 <= spacing <= 255 && spacing % 2 == 0
    ensures !AllDifferent(Walk(spacing, 256))
  {
    var w := Walk(spacing, 256);
    WalkClosedForm(spacing, 256);
    var h := spacing / 2;
    assert spacing * 129 == spacing + 256 * h;
    ModUnique(spacing * 129, 256, h, spacing);
    assert w[0] == w[128];
  }

  lemma OddDifference(s: int, a: int, b: int)
    requires 1 <= s <= 255 && s % 2 == 1 && 0 <= a < b < 256
    ensures s * (a + 1) % 256 != s * (b + 1) % 256
  {
    var d := b - a;
    Pow2Byte();
    ModUnique(d, 256, 0, d);
    OddFactor(s, d, 8);
    var x := s * (a + 1);
    var y := s * (b + 1);
    assert y - x == s * d;
    if x % 256 == y % 256 {
      ModUnique(y - x, 256, y / 256 - x / 256, 0);
    }
  }

  // ----- candidate spacings -----

  /**
   * The candidate filter of `FindBestColorSpacing`: spacings 1..255 in
   * increasing order that pass `HitsAllValuesIn256`. They are exactly the
   * 128 odd spacings.
   */
  method GoodSpacings() returns (good: seq<int>)
    ensures forall k :: 0 <= k < |good| ==> 1 <= good[k] <= 255 && AllDifferent(Walk(good[k], 256))
    ensures forall s :: 1 <= s <= 255 && AllDifferent(Walk(s, 256)) ==> s in good
    ensures |good| == 128 && forall k :: 0 <= k < 128 ==> good[k] == 2 * k + 1
  {
    good := [];
    var spacing := 1;
    while spacing < 256
      invariant 1 <= spacing <= 256
      invariant |good| == spacing / 2
      invariant forall k :: 0 <= k < |good| ==> good[k] == 2 * k + 1
    {
      good := Consider(good, spacing);
      spacing := spacing + 1;
    }
    OddSpacingsHitAll(good);
  }

  /** One pass of the filter: append `spacing` when it hits all values, which happens exactly when it is odd. */
  method Consider(good: seq<int>, spacing: int) returns (good': seq<int>)
    requires 1 <= spacing <= 255
    ensures good' == if spacing % 2 == 1 then good + [spacing] else good
  {
    var hits := HitsAllValuesIn256(spacing);
    HitsAllIffOdd(spacing);
    good' := if hits then good + [spacing] else good;
  }

  /** The list of odd spacings holds exactly the spacings that visit every value. */
  lemma OddSpacingsHitAll(good: seq<int>)
    requires |good| == 128 && forall k :: 0 <= k < 128 ==> good[k] == 2 * k + 1
    ensures forall k :: 0 <= k < |good| ==> 1 <= good[k] <= 255 && AllDifferent(Walk(good[k], 256))
    ensures forall s :: 1 <= s <= 255 && AllDifferent(Walk(s, 256)) ==> s in good
  {
    forall s | 1 <= s <= 255 && AllDifferent(Walk(s, 256))
      ensures s in good
    {
      HitsAllIffOdd(s);
      assert good[s / 2] == s;
    }
    forall k | 0 <= k < |good|
      ensures AllDifferent(Walk(good[k], 256))
    {
      HitsAllIffOdd(good[k]);
    }
  }

  // ----- circular distances -----

  function Abs(x: int): nat {
    if x < 0 then -x else x
  }

  /** `Math.Min(|a - b|, 256 - |a - b|)`: the distance between two hues around the wheel. */
  function CircularDistance(a: int, b: int): int {
    var d := Abs(a - b);
    if d <= 256 - d then d else 256 - d
  }

  lemma CircularDistanceBounds(a: int, b: int)
    requires 0 <= a <= 255 && 0 <= b <= 255
    ensures 0 <= CircularDistance(a, b) <= 128
  {
  }

  /** The inner loop for one `i`: the distances from value `i` to every later value. */
  function Row(vs: seq<int>, i: nat): (r: seq<int>)
    requires i < |vs|
    ensures |r| == |vs| - i - 1
    ensures forall k :: 0 <= k < |r| ==> r[k] == CircularDistance(vs[i], vs[i + 1 + k])
  {
    seq(|vs| - i - 1, (k: int) requires 0 <= k < |vs| - i - 1 => CircularDistance(vs[i], vs[i + 1 + k]))
  }

  /** The outer loop from `i` on. */
  function Rows(vs: seq<int>, i: nat): seq<int>
    requires i <= |vs|
    decreases |vs| - i
  {
    if i == |vs| then [] else Row(vs, i) + Rows(vs, i + 1)
  }

  function Pairs(n: int): int {
    n * (n - 1) / 2
  }

  lemma {:induction false} RowsCount(vs: seq<int>, i: nat)
    requires i <= |vs|
    ensures |Rows(vs, i)| == Pairs(|vs| - i)
    decreases |vs| - i
  {
    if i < |vs| {
      RowsCount(vs, i + 1);
      var m := |vs| - i;
      assert m * (m - 1) == (m - 1) * (m - 2) + 2 * (m - 1);
    }
  }

  /** Every pair from `i` on contributes its distance. */
  lemma RowsCover(vs: seq<int>, i: nat)
    requires i <= |vs|
    ensures forall a, b :: i <= a < b < |vs| ==> CircularDistance(vs[a], vs[b]) in Rows(vs, i)
  {
    forall a, b | i <= a < b < |vs|
      ensures CircularDistance(vs[a], vs[b]) in Rows(vs, i)
    {
      CoverPair(vs, i, a, b);
    }
  }

  /** The distance of the pair `a < b` is listed in the rows from any `i <= a` on. */
  lemma {:induction false} CoverPair(vs: seq<int>, i: nat, a: nat, b: nat)
    requires i <= a < b < |vs|
    ensures CircularDistance(vs[a], vs[b]) in Rows(vs, i)
    decreases a - i
  {
    assert Rows(vs, i) == Row(vs, i) + Rows(vs, i + 1);
    if a == i {
      InRow(vs, i, b);
    } else {
      CoverPair(vs, i + 1, a, b);
    }
    InConcat(CircularDistance(vs[a], vs[b]), Row(vs, i), Rows(vs, i + 1));
  }

  lemma InRow(vs: seq<int>, i: nat, b: nat)
    requires i < b < |vs|
    ensures CircularDistance(vs[i], vs[b]) in Row(vs, i)
  {
    assert Row(vs, i)[b - i - 1] == CircularDistance(vs[i], vs[b]);
  }

  lemma InConcat(x: int, p: seq<int>, q: seq<int>)
    requires x in p || x in q
    ensures x in p + q
  {
    if x in p {
      var k :| 0 <= k < |p| && p[k] == x;
      assert (p + q)[k] == x;
    } else {
      var k :| 0 <= k < |q| && q[k] == x;
      assert (p + q)[|p| + k] == x;
    }
  }

  /** Nothing but the distances of pairs from `i` on is listed. */
  lemma {:induction false} RowsWitness(vs: seq<int>, i: nat)
    requires i <= |vs|
    ensures forall x :: x in Rows(vs, i) ==>
      exists a, b :: i <= a < b < |vs| && x == CircularDistance(vs[a], vs[b])
    decreases |vs| - i
  {
    if i < |vs| {
      RowsWitness(vs, i + 1);
      var row := Row(vs, i);
      var rest := Rows(vs, i + 1);
      assert Rows(vs, i) == row + rest;
      forall x | x in row + rest
        ensures exists a, b :: i <= a < b < |vs| && x == CircularDistance(vs[a], vs[b])
      {
        if x in row {
          var k :| 0 <= k < |row| && row[k] == x;
          assert x == CircularDistance(vs[i], vs[i + 1 + k]);
        } else {
          assert x in rest;
        }
      }
    }
  }

  /**
   * `GetDiffs(spacing, n)`: the circular distance of every pair `i < j` of
   * the first `n` values, `n(n-1)/2` of them; a negative `n` yields none.
   * For a spacing that cannot overflow every distance lies in `[0, 128]`.
   */
  function GetDiffs(spacing: int, n: int): (r: seq<int>)
    requires IsInt32(spacing)
    ensures |r| == Pairs(if n < 0 then 0 else n)
    ensures n >= 0 ==> forall a, b :: 0 <= a < b < n ==>
      CircularDistance(Walk(spacing, n)[a], Walk(spacing, n)[b]) in r
    ensures n >= 0 ==> forall x :: x in r ==>
      exists a, b :: 0 <= a < b < n && x == CircularDistance(Walk(spacing, n)[a], Walk(spacing, n)[b])
    ensures 0 <= spacing <= Int32Max - 255 ==> forall x :: x in r ==> 0 <= x <= 128
  {
    var vs := Walk(spacing, if n < 0 then 0 else n);
    RowsCount(vs, 0);
    RowsCover(vs, 0);
    RowsWitness(vs, 0);
    DiffsAreSmall(spacing, vs);
    Rows(vs, 0)
  }

  lemma DiffsAreSmall(spacing: int, vs: seq<int>)
    requires IsInt32(spacing) && vs == Walk(spacing, |vs|)
    ensures 0 <= spacing <= Int32Max - 255 ==> forall a, b :: 0 <= a < b < |vs| ==> 0 <= CircularDistance(vs[a], vs[b]) <= 128
  {
    if 0 <= spacing <= Int32Max - 255 {
      WalkValuesAreBytes(spacing, |vs|);
      forall a, b | 0 <= a < b < |vs|
        ensures 0 <= CircularDistance(vs[a], vs[b]) <= 128
      {
        CircularDistanceBounds(vs[a], vs[b]);
      }
    }
  }
}
