/**
 * The acceleration layers of the Rust kernel: the pairwise Newtonian law, the
 * sum over all other bodies acting on one body, and the batch over all bodies.
 * Bodies are identified by their index in the parallel `masses` and
 * `positions` sequences.
 */
module Gravity {
  import opened Vectors

  /** The gravitational constant, 6.67430e-11 in SI units. */
  const GravitationalConstant: real := 0.0000000000667430

  predicate Ensemble(masses: seq<real>, positions: seq<Vec3>) {
    |masses| == |positions|
  }

  /**
   * Acceleration that a body of mass `m2` at offset `displacement` imparts:
   * the displacement scaled by `G * m2`, then divided by the cubed distance.
   * A zero displacement is not treated specially.
   */
  function OneOnOne(fp: FloatModel, displacement: Vec3, m2: real): Vec3 {
    var distance := fp.norm(displacement);
    fp.divide(Scale(GravitationalConstant * m2, displacement), distance * distance * distance)
  }

  /** Contribution of body `i` to the acceleration of body `self`, or nothing when `i == self`. */
  function Contribution(fp: FloatModel, masses: seq<real>, positions: seq<Vec3>, self: nat, i: nat): Vec3
    requires Ensemble(masses, positions) && self < |positions| && i < |positions|
  {
    OneOnOne(fp, Sub(positions[i], positions[self]), masses[i])
  }

  /**
   * Reference definition of the sum over bodies `0 .. n-1`, accumulated in
   * ascending index order and skipping `self` by index.
   */
  function PartialSum(fp: FloatModel, masses: seq<real>, positions: seq<Vec3>, self: nat, n: nat): Vec3
    requires Ensemble(masses, positions) && self < |positions| && n <= |positions|
  {
    if n == 0 then Zero
    else
      var acc := PartialSum(fp, masses, positions, self, n - 1);
      if n - 1 == self then acc else Add(acc, Contribution(fp, masses, positions, self, n - 1))
  }

  /** Acceleration of body `self` due to every other body. */
  function Acceleration(fp: FloatModel, masses: seq<real>, positions: seq<Vec3>, self: nat): Vec3
    requires Ensemble(masses, positions) && self < |positions|
  {
    PartialSum(fp, masses, positions, self, |positions|)
  }

  /** Accelerations of every body. */
  function Accelerations(fp: FloatModel, masses: seq<real>, positions: seq<Vec3>): (r: seq<Vec3>)
    requires Ensemble(masses, positions)
    ensures |r| == |positions|
    ensures forall i :: 0 <= i < |r| ==> r[i] == Acceleration(fp, masses, positions, i)
  {
    seq(|positions|, i requires 0 <= i < |positions| => Acceleration(fp, masses, positions, i))
  }

  /** When division is exact, the pairwise law is Newton's inverse-square law `d·(G·m)/|d|³`. */
  lemma NewtonLaw(fp: FloatModel, d: Vec3, m: real)
    requires ExactDivision(fp) && fp.norm(d) != 0.0
    ensures var n := fp.norm(d);
      OneOnOne(fp, d, m) == Scale(GravitationalConstant * m / (n * n * n), d)
  {
    var n := fp.norm(d);
    assert n * n * n != 0.0;
    var k := 1.0 / (n * n * n);
    assert OneOnOne(fp, d, m) == Scale(k, Scale(GravitationalConstant * m, d));
  }

  /** A source body at the same point as the accelerated body yields a non-finite acceleration. */
  lemma CoincidentSourceIsNotFinite(fp: FloatModel, m: real)
    requires ZeroDivisionIsNotFinite(fp) && fp.norm(Zero) == 0.0
    ensures !fp.isFinite(OneOnOne(fp, Zero, m))
  {
    assert 0.0 * 0.0 * 0.0 == 0.0;
  }

  /**
   * The Rust `compute_gravitational_acceleration_many_on_one`: a loop over all
   * indices in ascending order, adding the pairwise law for every index other
   * than `self`.
   */
  method ManyOnOne(fp: FloatModel, masses: seq<real>, positions: seq<Vec3>, self: nat) returns (acceleration: Vec3)
    requires Ensemble(masses, positions) && self < |positions|
    ensures acceleration == Acceleration(fp, masses, positions, self)
  {
    acceleration := Zero;
    for i := 0 to |positions|
      invariant acceleration == PartialSum(fp, masses, positions, self, i)
    {
      if i != self {
        var displacement := Sub(positions[i], positions[self]);
        var gravAcceleration := OneOnOne(fp, displacement, masses[i]);
        acceleration := Add(acceleration, gravAcceleration);
      }
    }
  }

  /**
   * The Rust `compute_gravitational_acceleration_many_on_many`, run
   * sequentially: every slot of the caller's buffer is overwritten with the
   * acceleration of that body, whatever it held before.
   */
  method ManyOnMany(fp: FloatModel, masses: seq<real>, positions: seq<Vec3>, accelerations: seq<Vec3>)
    returns (written: seq<Vec3>)
    requires Ensemble(masses, positions) && |accelerations| == |positions|
    ensures |written| == |positions|
    ensures forall i :: 0 <= i < |written| ==> written[i] == Acceleration(fp, masses, positions, i)
  {
    written := accelerations;
    for i := 0 to |positions|
      invariant |written| == |positions|
      invariant forall j :: 0 <= j < i ==> written[j] == Acceleration(fp, masses, positions, j)
    {
      var a := ManyOnOne(fp, masses, positions, i);
      written := written[i := a];
    }
  }

  /** Every index other than `self` below `n` contributes; `self` itself never does. */
  lemma {:induction false} PartialSumIgnoresOwnMass(fp: FloatModel, masses: seq<real>, positions: seq<Vec3>, self: nat, n: nat, m: real)
    requires Ensemble(masses, positions) && self < |positions| && n <= |positions|
    ensures PartialSum(fp, masses[self := m], positions, self, n) == PartialSum(fp, masses, positions, self, n)
  {
    if n > 0 {
      PartialSumIgnoresOwnMass(fp, masses, positions, self, n - 1, m);
    }
  }

  /** The acceleration of a body does not depend on its own mass: self is skipped by index. */
  lemma OwnMassIsIrrelevant(fp: FloatModel, masses: seq<real>, positions: seq<Vec3>, self: nat, m: real)
    requires Ensemble(masses, positions) && self < |positions|
    ensures Acceleration(fp, masses[self := m], positions, self) == Acceleration(fp, masses, positions, self)
  {
    PartialSumIgnoresOwnMass(fp, masses, positions, self, |positions|, m);
  }

  function Translate(positions: seq<Vec3>, t: Vec3): (r: seq<Vec3>)
    ensures |r| == |positions|
    ensures forall i :: 0 <= i < |r| ==> r[i] == Add(positions[i], t)
  {
    seq(|positions|, i requires 0 <= i < |positions| => Add(positions[i], t))
  }

  lemma {:induction false} PartialSumTranslationInvariant(fp: FloatModel, masses: seq<real>, positions: seq<Vec3>, t: Vec3, self: nat, n: nat)
    requires Ensemble(masses, positions) && self < |positions| && n <= |positions|
    ensures PartialSum(fp, masses, Translate(positions, t), self, n) == PartialSum(fp, masses, positions, self, n)
  {
    if n > 0 {
      PartialSumTranslationInvariant(fp, masses, positions, t, self, n - 1);
      var moved := Translate(positions, t);
      assert Sub(moved[n - 1], moved[self]) == Sub(positions[n - 1], positions[self]);
    }
  }

  /** Moving every body by the same offset leaves every acceleration unchanged. */
  lemma TranslationInvariant(fp: FloatModel, masses: seq<real>, positions: seq<Vec3>, t: Vec3)
    requires Ensemble(masses, positions)
    ensures Accelerations(fp, masses, Translate(positions, t)) == Accelerations(fp, masses, positions)
  {
    forall i | 0 <= i < |positions|
      ensures Acceleration(fp, masses, Translate(positions, t), i) == Acceleration(fp, masses, positions, i)
    {
      PartialSumTranslationInvariant(fp, masses, positions, t, i, |positions|);
    }
  }

  /** With two bodies, each is accelerated by exactly the other one's pairwise law. */
  lemma TwoBodies(fp: FloatModel, masses: seq<real>, positions: seq<Vec3>)
    requires Ensemble(masses, positions) && |positions| == 2
    ensures Acceleration(fp, masses, positions, 0) == OneOnOne(fp, Sub(positions[1], positions[0]), masses[1])
    ensures Acceleration(fp, masses, positions, 1) == OneOnOne(fp, Sub(positions[0], positions[1]), masses[0])
  {
    var c := OneOnOne(fp, Sub(positions[1], positions[0]), masses[1]);
    assert PartialSum(fp, masses, positions, 0, 1) == Zero;
    assert Add(Zero, c) == c;
    var d := OneOnOne(fp, Sub(positions[0], positions[1]), masses[0]);
    assert PartialSum(fp, masses, positions, 1, 1) == Add(Zero, d);
    assert Add(Zero, d) == d;
  }
}
