/**
 * `MechanicsCore.BodyColor` and `MechanicsCore.BodyColors`: the colour record
 * and the three ways of picking a colour for a body ID.
 *
 * `HueToRGB` works in floating point; it is the parameter `hueToRgb`, and the
 * hue table is that function applied to every byte value.
 */
module BodyColors {
  import opened Numbers
  import opened Outcomes

  /** `BodyColor(byte R, byte G, byte B)`. */
  datatype BodyColor = BodyColor(r: Byte, g: Byte, b: Byte)

  const Sun: BodyColor := BodyColor(0xFF, 0xD7, 0x00)
  const Earth: BodyColor := BodyColor(0x20, 0xB2, 0xAA)
  const Moon: BodyColor := BodyColor(0xC0, 0xC0, 0xC0)

  /** Every channel is either off or at full strength. */
  predicate Saturated(c: BodyColor) {
    (c.r == 0 || c.r == 255) && (c.g == 0 || c.g == 255) && (c.b == 0 || c.b == 255)
  }

  function FullChannels(c: BodyColor): nat {
    (if c.r == 255 then 1 else 0) + (if c.g == 255 then 1 else 0) + (if c.b == 255 then 1 else 0)
  }

  /**
   * `ComputeRadiance`: the sum of the three channels. It ranges from 0 (only
   * black) to 765 (only white); a colour whose channels are all off or full
   * has 255 per full channel, so primaries have 255 and secondaries 510.
   */
  function ComputeRadiance(c: BodyColor): (radiance: int)
    ensures 0 <= radiance <= 765
    ensures radiance == 765 <==> c == BodyColor(255, 255, 255)
    ensures radiance == 0 <==> c == BodyColor(0, 0, 0)
    ensures Saturated(c) ==> radiance == 255 * FullChannels(c)
  {
    c.r + c.g + c.b
  }

  /** `sSatBrightColorsByHue`: `HueToRGB` of every byte value, in order. */
  function HueTable(hueToRgb: Byte -> BodyColor): (t: seq<BodyColor>)
    ensures |t| == 256
    ensures forall h: Byte :: t[h] == hueToRgb(h)
  {
    seq(256, (i: int) requires 0 <= i < 256 => hueToRgb(i))
  }

  /**
   * `GetCloseCyclicColor`: the hue at `id % 256`. C#'s `%` keeps the sign of
   * `id`, so a negative ID that is not a multiple of 256 indexes the table
   * below zero. The table is read through `IReadOnlyList<BodyColor>`, whose
   * indexer throws `ArgumentOutOfRangeException` for that.
   */
  function GetCloseCyclicColor(hueToRgb: Byte -> BodyColor, id: int): (r: Result<BodyColor>)
    requires IsInt32(id)
    ensures r.Err? <==> id < 0 && id % 256 != 0
    ensures r.Err? ==> r.error == ArgumentOutOfRange
    ensures r.Ok? ==> r.value == hueToRgb(id % 256)
  {
    var hueByte := CsRem(id, 256);
    if hueByte < 0 then Err(ArgumentOutOfRange) else Ok(HueTable(hueToRgb)[hueByte])
  }

  /** For non-negative IDs the close cyclic colours repeat every 256 values. */
  lemma CloseCyclicRepeats(hueToRgb: Byte -> BodyColor, id: int)
    requires 0 <= id && id + 256 <= Int32Max
    ensures GetCloseCyclicColor(hueToRgb, id + 256) == GetCloseCyclicColor(hueToRgb, id)
    ensures GetCloseCyclicColor(hueToRgb, id).Ok?
  {
    assert (id + 256) % 256 == id % 256;
  }

  // ----- spaced values -----

  /** C#'s `x % 1` on a `double`: `x` minus `x` truncated toward zero. */
  function FMod1(x: real): real {
    if x >= 0.0 then x - x.Floor as real else x + (-x).Floor as real
  }

  /** `0.5 / n` with `n = 1 << setI`. */
  function Offset(setI: nat): real {
    0.5 / Pow2(setI) as real
  }

  /** `2^-s`, by halving. */
  function Frac(s: nat): (f: real)
    ensures f > 0.0
  {
    if s == 0 then 1.0 else Frac(s - 1) / 2.0
  }

  lemma {:induction false} FracIsInverse(s: nat)
    ensures Frac(s) == 1.0 / Pow2(s) as real
  {
    if s > 0 {
      FracIsInverse(s - 1);
      HalveInverse(Pow2(s - 1) as real);
    }
  }

  lemma HalveInverse(p: real)
    requires p >= 1.0
    ensures (1.0 / p) / 2.0 == 1.0 / (2.0 * p)
  {
  }

  /** The rotation of set `s` is half its spacing, `2^-(s+1)`. */
  lemma OffsetIsFrac(s: nat)
    ensures Offset(s) == Frac(s + 1)
  {
    FracIsInverse(s);
    HalveInverse(Pow2(s) as real);
  }

  lemma {:induction false} FracMonotone(a: nat, b: nat)
    requires a <= b
    ensures Frac(b) <= Frac(a)
    decreases b
  {
    if a < b {
      FracMonotone(a, b - 1);
    }
  }

  /**
   * `GetNextRotated(setI, precomputed)`: the first `1 << setI` precomputed
   * values, each moved half a spacing along and wrapped into `[0, 1)`. The
   * shift is exact for the set numbers `GetSpaced01s` reaches.
   */
  function GetNextRotated(setI: nat, precomputed: seq<real>): (r: seq<real>)
    requires setI <= 30 && Pow2(setI) <= |precomputed|
    ensures |r| == Pow2(setI)
    ensures forall i :: 0 <= i < |r| ==> r[i] == FMod1(Frac(setI + 1) + precomputed[i])
  {
    OffsetIsFrac(setI);
    seq(Pow2(setI), (i: int) requires 0 <= i < Pow2(setI) => FMod1(Offset(setI) + precomputed[i]))
  }

  /**
   * The value at position `k` of the spaced sequence: the binary digits of
   * `k` mirrored behind the binary point (0, 1/2, 1/4, 3/4, 1/8, …, the
   * base-2 van der Corput sequence). `GetSpaced01s` builds it set by set by
   * rotation; `SpacedAt` shows the two agree.
   */
  function Spaced(k: nat): real
    decreases k
  {
    if k == 0 then 0.0 else (k % 2) as real / 2.0 + Spaced(k / 2) / 2.0
  }

  lemma FirstSpacedValues()
    ensures Spaced(1) == 0.5 && Spaced(2) == 0.25 && Spaced(3) == 0.75
    ensures Spaced(4) == 0.125 && Spaced(5) == 0.625 && Spaced(6) == 0.375 && Spaced(7) == 0.875
  {
  }

  /**
   * `GetSpaced01s(n)`: position 0 keeps its default 0, and the sets of
   * rotated values fill positions 1, 2, … until `n` are filled. A negative
   * length is refused by the allocation. With `n` of 0 the first set reads
   * `precomputed[0]` through `IReadOnlyList<double>`, which throws
   * `ArgumentOutOfRangeException`; with `n` of 1 it writes `result[1]`
   * directly into the `double[]`, which throws `IndexOutOfRangeException`.
   */
  method GetSpaced01s(n: int) returns (r: Result<seq<real>>)
    requires IsInt32(n)
    ensures n < 0 <==> r == Err(Overflow)
    ensures n == 0 <==> r == Err(ArgumentOutOfRange)
    ensures n == 1 <==> r == Err(IndexOutOfRange)
    ensures r.Ok? ==> |r.value| == n && r.value[0] == 0.0
    ensures r.Ok? ==> forall k :: 0 <= k < n ==> r.value[k] == Spaced(k)
  {
    if n < 0 {
      return Err(Overflow);
    }
    if n == 0 {
      return Err(ArgumentOutOfRange);
    }
    if n == 1 {
      return Err(IndexOutOfRange);
    }
    var result := seq(n, _ => 0.0);
    var i := 1;
    var setI := 0;
    while i < n
      invariant 1 <= i <= n && |result| == n
      invariant i < n ==> i == Pow2(setI)
      invariant forall k :: 0 <= k < i ==> result[k] == Spaced(k)
      decreases n - i
    {
      SetBound(setI, n);
      result, i := FillSet(result, setI, n);
      setI := setI + 1;
    }
    return Ok(result);
  }

  /** A set that starts before position `n` of an `int`-indexed array has a shift count below 31. */
  lemma SetBound(s: nat, n: int)
    requires Pow2(s) < n <= Int32Max
    ensures s <= 30
  {
    Pow2LowerBound(s);
  }

  lemma {:induction false} Pow2LowerBound(s: nat)
    ensures s >= 31 ==> Pow2(s) >= 0x8000_0000
  {
    if s == 31 {
      Pow2Sign();
    } else if s > 31 {
      Pow2LowerBound(s - 1);
    }
  }

  /**
   * One pass of the `foreach` over `GetNextRotated(setI, result)`: write the
   * rotated values from position `2^setI` on, stopping when the array is full.
   */
  method FillSet(result: seq<real>, setI: nat, n: int) returns (result': seq<real>, i: int)
    requires setI <= 30 && |result| == n && Pow2(setI) < n
    requires forall k {:trigger result[k]} :: 0 <= k < Pow2(setI) ==> result[k] == Spaced(k)
    ensures |result'| == n && Pow2(setI) < i <= n
    ensures i < n ==> i == Pow2(setI + 1)
    ensures forall k {:trigger result'[k]} :: 0 <= k < i ==> result'[k] == Spaced(k)
  {
    var rotated := GetNextRotated(setI, result);
    result' := result;
    i := Pow2(setI);
    var j := 0;
    while j < |rotated| && i < n
      invariant 0 <= j <= |rotated| && i == Pow2(setI) + j <= n && |result'| == n
      invariant forall k {:trigger result'[k]} :: 0 <= k < i ==> result'[k] == Spaced(k)
      decreases |rotated| - j
    {
      var v := rotated[j];
      RotatedValue(v, result[j], setI, j);
      result' := result'[i := v];
      i := i + 1;
      j := j + 1;
    }
  }

  /** A value rotated from the spaced value at `j` by set `s` is the spaced value at `2^s + j`. */
  lemma RotatedValue(v: real, x: real, s: nat, j: nat)
    requires j < Pow2(s) && x == Spaced(j)
    requires v == FMod1(Frac(s + 1) + x)
    ensures v == Spaced(Pow2(s) + j)
  {
    SpacedAt(s, j);
  }

  /** Position `2^s + j` of the spaced sequence holds the value at `j` rotated by `2^-(s+1)`. */
  lemma SpacedAt(s: nat, j: nat)
    requires j < Pow2(s)
    ensures Spaced(Pow2(s) + j) == FMod1(Frac(s + 1) + Spaced(j))
  {
    SpacedShift(s, j);
    SpacedBounds(j, s);
    NoWrap(Frac(s + 1) + Spaced(j));
  }

  /** Setting bit `s` of a position below `2^s` adds `2^-(s+1)` to its value. */
  lemma {:induction false} SpacedShift(s: nat, j: nat)
    requires j < Pow2(s)
    ensures Spaced(Pow2(s) + j) == Frac(s + 1) + Spaced(j)
    decreases s
  {
    if s > 0 {
      var p := Pow2(s - 1);
      var k := Pow2(s) + j;
      DropLowBit(k, p, j);
      SpacedShift(s - 1, j / 2);
      assert Spaced(k) == (j % 2) as real / 2.0 + Spaced(p + j / 2) / 2.0;
    }
  }

  /** Adding an even `2p` to `j` keeps its lowest bit and adds `p` to the rest. */
  lemma DropLowBit(k: nat, p: nat, j: nat)
    requires k == 2 * p + j
    ensures k % 2 == j % 2 && k / 2 == p + j / 2
  {
  }

  /** Before position `2^m` every spaced value is a fraction in `[0, 1 - 2^-m]`. */
  lemma {:induction false} SpacedBounds(k: nat, m: nat)
    requires k < Pow2(m)
    ensures 0.0 <= Spaced(k) && Spaced(k) + Frac(m) <= 1.0
    decreases m
  {
    if m > 0 {
      SpacedBounds(k / 2, m - 1);
    }
  }

  /** The spaced values before `2^m` lie in `[0, 1 - 2^-m]`. */
  lemma SpacedRange(k: nat, m: nat)
    requires k < Pow2(m)
    ensures 0.0 <= Spaced(k) && Spaced(k) + 1.0 / Pow2(m) as real <= 1.0
  {
    SpacedBounds(k, m);
    FracIsInverse(m);
  }

  /**
   * The `% 1` of `GetNextRotated` never wraps on the values it is given: the
   * value at `2^s + j` is the value at `j` plus the rotation `0.5 / 2^s`.
   */
  lemma RotationDoesNotWrap(s: nat, j: nat)
    requires j < Pow2(s)
    ensures Spaced(Pow2(s) + j) == Offset(s) + Spaced(j)
    ensures Offset(s) + Spaced(j) < 1.0
  {
    SpacedShift(s, j);
    SpacedBounds(j, s);
    OffsetIsFrac(s);
  }

  lemma NoWrap(x: real)
    requires 0.0 <= x < 1.0
    ensures FMod1(x) == x
  {
    assert x.Floor == 0;
  }

  /**
   * `Convert.ToByte(double)`: round to the nearest integer, ties to even,
   * and throw unless the rounded value fits in a byte.
   */
  function RoundToEven(x: real): (k: int)
    ensures k as real - 0.5 <= x <= k as real + 0.5
    ensures x == x.Floor as real ==> k == x.Floor
    ensures x - x.Floor as real == 0.5 ==> k % 2 == 0
  {
    var f := x.Floor;
    var d := x - f as real;
    if d > 0.5 || (d == 0.5 && f % 2 != 0) then f + 1 else f
  }

  function ToByte(x: real): (r: Result<Byte>)
    ensures r.Err? <==> x < -0.5 || 255.5 <= x
    ensures r.Ok? ==> r.value as real - 0.5 <= x <= r.value as real + 0.5
    ensures r.Ok? && x - x.Floor as real == 0.5 ==> r.value % 2 == 0
  {
    var k := RoundToEven(x);
    if 0 <= k <= 255 then Ok(k) else Err(Overflow)
  }

  /** Entry `k` of `sSpacedBytes`: the spaced value scaled to `[0, 256)` and rounded to a byte. */
  function SpacedByte(k: nat): (b: Byte)
    requires k < 256
    ensures ToByte(Spaced(k) * 256.0) == Ok(b)
  {
    Pow2Byte();
    SpacedRange(k, 8);
    Scaled(Spaced(k));
    ToByte(Spaced(k) * 256.0).value
  }

  /** A fraction that leaves room for `1/256` scales into `[0, 255]`. */
  lemma Scaled(y: real)
    requires 0.0 <= y && y + 1.0 / 256.0 <= 1.0
    ensures 0.0 <= y * 256.0 <= 255.0
  {
  }

  /** `sSpacedBytes`: `GetSpaced01s(256)` scaled and converted; no entry overflows a byte. */
  function SpacedBytes(): (t: seq<Byte>)
    ensures |t| == 256
    ensures forall k :: 0 <= k < 256 ==> ToByte(Spaced(k) * 256.0) == Ok(t[k])
  {
    seq(256, (k: int) requires 0 <= k < 256 => SpacedByte(k))
  }

  /**
   * `GetSpacedCyclicColor`: the hue at `sSpacedBytes[id % 256]`. A negative
   * index into the `IReadOnlyList<byte>` throws `ArgumentOutOfRangeException`,
   * as for the close cyclic colours.
   */
  function GetSpacedCyclicColor(hueToRgb: Byte -> BodyColor, id: int): (r: Result<BodyColor>)
    requires IsInt32(id)
    ensures r.Err? <==> id < 0 && id % 256 != 0
    ensures r.Err? ==> r.error == ArgumentOutOfRange
    ensures r.Ok? ==> r.value == hueToRgb(SpacedBytes()[id % 256])
  {
    var index := CsRem(id, 256);
    if index < 0 then Err(ArgumentOutOfRange) else Ok(HueTable(hueToRgb)[SpacedBytes()[index]])
  }

  /** For non-negative IDs the spaced colour depends only on the ID modulo 256. */
  lemma SpacedCyclicPeriodic(hueToRgb: Byte -> BodyColor, a: int, b: int)
    requires IsInt32(a) && IsInt32(b) && 0 <= a && 0 <= b && a % 256 == b % 256
    ensures GetSpacedCyclicColor(hueToRgb, a) == GetSpacedCyclicColor(hueToRgb, b)
  {
  }

  // ----- hashed colours -----

  const HashMultiplier: int := 33149

  /** The plain sum of a byte sequence. */
  function ByteSum(s: seq<Byte>): int {
    if s == [] then 0 else s[0] + ByteSum(s[1..])
  }

  /**
   * `Hash8`: add each byte times 33149, cut to a byte, into a byte
   * accumulator that wraps. The result is the byte sum times 33149 modulo 256.
   */
  function Hash8(input: seq<Byte>): (h: Byte)
    ensures h == ByteSum(input) * HashMultiplier % 256
  {
    if input == [] then 0
    else
      var front := input[..|input| - 1];
      var last := input[|input| - 1];
      var h := (Hash8(front) + (last * HashMultiplier) % 256) % 256;
      SumSplit(input);
      ModSum(ByteSum(front) * HashMultiplier, last * HashMultiplier);
      h
  }

  lemma {:induction false} SumSplit(s: seq<Byte>)
    requires s != []
    ensures ByteSum(s) == ByteSum(s[..|s| - 1]) + s[|s| - 1]
  {
    if |s| > 1 {
      var t := s[1..];
      assert t[..|t| - 1] == s[1..|s| - 1];
      SumSplit(t);
      assert s[..|s| - 1][1..] == s[1..|s| - 1];
    }
  }

  lemma ModSum(x: int, y: int)
    ensures (x % 256 + y % 256) % 256 == (x + y) % 256
  {
  }

  lemma {:induction false} SumConcat(a: seq<Byte>, b: seq<Byte>)
    ensures ByteSum(a + b) == ByteSum(a) + ByteSum(b)
  {
    if a != [] {
      assert (a + b)[0] == a[0];
      assert (a + b)[1..] == a[1..] + b;
      SumConcat(a[1..], b);
    } else {
      assert a + b == b;
    }
  }

  /** The byte sum does not depend on the order of the bytes. */
  lemma {:induction false} SumPermutation(a: seq<Byte>, b: seq<Byte>)
    requires multiset(a) == multiset(b)
    ensures ByteSum(a) == ByteSum(b)
    decreases |a|
  {
    if a != [] {
      var x := a[0];
      assert x in multiset(b) by {
        assert x in multiset(a);
      }
      var k :| 0 <= k < |b| && b[k] == x;
      SumRemove(b, k);
      MultisetRemove(b, k);
      MultisetTail(a);
      SumPermutation(a[1..], b[..k] + b[k + 1..]);
    } else {
      assert |b| == |multiset(b)| == 0;
    }
  }

  /** Taking out one byte takes its value off the sum. */
  lemma SumRemove(b: seq<Byte>, k: nat)
    requires k < |b|
    ensures ByteSum(b) == b[k] + ByteSum(b[..k] + b[k + 1..])
  {
    assert b == b[..k] + [b[k]] + b[k + 1..];
    SumAround(b[..k], b[k], b[k + 1..]);
    SumConcat(b[..k], b[k + 1..]);
  }

  lemma SumAround(front: seq<Byte>, x: Byte, back: seq<Byte>)
    ensures ByteSum(front + [x] + back) == ByteSum(front) + x + ByteSum(back)
  {
    SumConcat(front + [x], back);
    SumConcat(front, [x]);
    assert ByteSum([x]) == x + ByteSum([]);
  }

  /** Taking out one byte takes one copy of it out of the multiset. */
  lemma MultisetRemove(b: seq<Byte>, k: nat)
    requires k < |b|
    ensures multiset(b[..k] + b[k + 1..]) == multiset(b) - multiset{b[k]}
  {
    var x, front, back := b[k], b[..k], b[k + 1..];
    assert b == front + [x] + back;
    assert multiset(b) == multiset(front) + multiset{x} + multiset(back);
  }

  lemma MultisetTail(a: seq<Byte>)
    requires a != []
    ensures multiset(a[1..]) == multiset(a) - multiset{a[0]}
  {
    assert a == [a[0]] + a[1..];
  }

  /** `Hash8` ignores the order of its input bytes. */
  lemma Hash8Permutation(a: seq<Byte>, b: seq<Byte>)
    requires multiset(a) == multiset(b)
    ensures Hash8(a) == Hash8(b)
  {
    SumPermutation(a, b);
  }

  /** `BitConverter.GetBytes(int)`: the four bytes of the two's complement, least significant first. */
  function GetBytes(id: int): (bs: seq<Byte>)
    requires IsInt32(id)
    ensures |bs| == 4
    ensures FromBytes(bs) == id
  {
    var u := id % 0x1_0000_0000;
    Decompose(u);
    var bs := [u % 256, (u / 0x100) % 256, (u / 0x1_0000) % 256, u / 0x100_0000];
    SameResidue(id, u);
    bs
  }

  /** A 32-bit unsigned value is the little-endian combination of its four bytes. */
  lemma Decompose(u: int)
    requires 0 <= u < 0x1_0000_0000
    ensures 0 <= u / 0x100_0000 < 256
    ensures u % 256 + 0x100 * ((u / 0x100) % 256) + 0x1_0000 * ((u / 0x1_0000) % 256) + 0x100_0000 * (u / 0x100_0000) == u
  {
    var a := u / 0x100;
    var b := u / 0x1_0000;
    var c := u / 0x100_0000;
    assert b == a / 0x100;
    assert c == b / 0x100;
    assert u == 0x100 * a + u % 256;
    assert a == 0x100 * b + a % 256;
    assert b == 0x100 * c + b % 256;
  }

  /** `BitConverter.ToInt32`: four little-endian bytes read back as a signed `int`. */
  function FromBytes(bs: seq<Byte>): (id: int)
    requires |bs| == 4
    ensures IsInt32(id)
  {
    Wrap32(bs[0] as int + 0x100 * bs[1] as int + 0x1_0000 * bs[2] as int + 0x100_0000 * bs[3] as int)
  }

  lemma SameResidue(id: int, u: int)
    requires IsInt32(id) && u == id % 0x1_0000_0000
    ensures Wrap32(u) == id
  {
    var w := Wrap32(u);
    assert (w - u) % 0x1_0000_0000 == 0;
    assert (u - id) % 0x1_0000_0000 == 0;
    assert (w - id) % 0x1_0000_0000 == 0;
  }

  /**
   * `GetHashedPseudorandomColor`: the hue at the hash of the ID's four bytes.
   * The hash is a byte, so the table lookup is always in range, for negative
   * IDs too.
   */
  function GetHashedPseudorandomColor(hueToRgb: Byte -> BodyColor, id: int): (c: BodyColor)
    requires IsInt32(id)
    ensures c == hueToRgb(ByteSum(GetBytes(id)) * HashMultiplier % 256)
  {
    HueTable(hueToRgb)[Hash8(GetBytes(id))]
  }
}
