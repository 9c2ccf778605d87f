/**
 * One symplectic-Euler step of the Rust kernel (`try_compute_step`): all
 * accelerations are computed from the current positions, then each body in
 * ascending order gets `v' = v + dt·a` and `p' = p + dt·v'`. The step fails at
 * the first body whose `a`, `v'` or `p'` is not finite.
 */
module Stepper {
  import opened Outcomes
  import opened Vectors
  import opened Gravity

  /** Positions and velocities of the whole ensemble, index by index. */
  datatype State = State(positions: seq<Vec3>, velocities: seq<Vec3>)

  predicate Fits(masses: seq<real>, s: State) {
    |s.positions| == |masses| && |s.velocities| == |masses|
  }

  /** The next velocity of body `i`: uses this step's acceleration. */
  function NextVelocity(fp: FloatModel, dt: real, masses: seq<real>, s: State, i: nat): Vec3
    requires Fits(masses, s) && i < |masses|
  {
    Add(s.velocities[i], Scale(dt, Acceleration(fp, masses, s.positions, i)))
  }

  /** The next position of body `i`: uses the updated velocity, not the current one. */
  function NextPosition(fp: FloatModel, dt: real, masses: seq<real>, s: State, i: nat): Vec3
    requires Fits(masses, s) && i < |masses|
  {
    Add(s.positions[i], Scale(dt, NextVelocity(fp, dt, masses, s, i)))
  }

  /** Body `i` passes the finiteness test. */
  predicate BodyOk(fp: FloatModel, dt: real, masses: seq<real>, s: State, i: nat)
    requires Fits(masses, s) && i < |masses|
  {
    fp.isFinite(Acceleration(fp, masses, s.positions, i))
    && fp.isFinite(NextVelocity(fp, dt, masses, s, i))
    && fp.isFinite(NextPosition(fp, dt, masses, s, i))
  }

  /** Bodies `0 .. n-1` all pass. */
  predicate PrefixOk(fp: FloatModel, dt: real, masses: seq<real>, s: State, n: nat)
    requires Fits(masses, s) && n <= |masses|
  {
    forall i :: 0 <= i < n ==> BodyOk(fp, dt, masses, s, i)
  }

  /** Body `f` is the first one that fails. */
  predicate FirstFailure(fp: FloatModel, dt: real, masses: seq<real>, s: State, f: nat)
    requires Fits(masses, s)
  {
    f < |masses| && PrefixOk(fp, dt, masses, s, f) && !BodyOk(fp, dt, masses, s, f)
  }

  /** The next positions and velocities of every body, whether finite or not. */
  function Successor(fp: FloatModel, dt: real, masses: seq<real>, s: State): (r: State)
    requires Fits(masses, s)
    ensures Fits(masses, r)
  {
    State(seq(|masses|, i requires 0 <= i < |masses| => NextPosition(fp, dt, masses, s, i)),
          seq(|masses|, i requires 0 <= i < |masses| => NextVelocity(fp, dt, masses, s, i)))
  }

  /** Reference definition of a step: the successor when every body passes, otherwise no state. */
  function Step(fp: FloatModel, dt: real, masses: seq<real>, s: State): (r: Option<State>)
    requires Fits(masses, s)
    ensures r.Some? ==> Fits(masses, r.value)
  {
    if PrefixOk(fp, dt, masses, s, |masses|) then Some(Successor(fp, dt, masses, s)) else None
  }

  /** The next pair after a failure at body `f`: slots before `f` written, the rest untouched. */
  function PartiallyWritten(fp: FloatModel, dt: real, masses: seq<real>, s: State, next: State, f: nat): State
    requires Fits(masses, s) && Fits(masses, next) && f <= |masses|
  {
    var full := Successor(fp, dt, masses, s);
    State(full.positions[..f] + next.positions[f..], full.velocities[..f] + next.velocities[f..])
  }

  /**
   * The Rust `try_compute_step`. The current pair is only read (it is an input
   * value); the next pair and the acceleration buffer are returned updated.
   * On success both next buffers hold the successor in all N slots; on failure
   * exactly the bodies before the first failing one have been written.
   */
  method TryComputeStep(fp: FloatModel, dt: real, masses: seq<real>, current: State, next: State, accelerations: seq<Vec3>)
    returns (success: bool, next': State, accelerations': seq<Vec3>)
    requires Fits(masses, current) && Fits(masses, next) && |accelerations| == |masses|
    ensures Fits(masses, next')
    ensures accelerations' == Accelerations(fp, masses, current.positions)
    ensures success <==> Step(fp, dt, masses, current).Some?
    ensures success ==> next' == Step(fp, dt, masses, current).value
    ensures !success ==> exists f :: FirstFailure(fp, dt, masses, current, f)
                                    && next' == PartiallyWritten(fp, dt, masses, current, next, f)
  {
    accelerations' := ManyOnMany(fp, masses, current.positions, accelerations);
    var positions, velocities := next.positions, next.velocities;
    var full := Successor(fp, dt, masses, current);
    for i := 0 to |masses|
      invariant |positions| == |masses| && |velocities| == |masses|
      invariant PrefixOk(fp, dt, masses, current, i)
      invariant positions == full.positions[..i] + next.positions[i..]
      invariant velocities == full.velocities[..i] + next.velocities[i..]
    {
      var a := accelerations'[i];
      var v := Add(current.velocities[i], Scale(dt, a));
      var p := Add(current.positions[i], Scale(dt, v));
      assert v == NextVelocity(fp, dt, masses, current, i) == full.velocities[i];
      assert p == NextPosition(fp, dt, masses, current, i) == full.positions[i];
      if !fp.isFinite(a) || !fp.isFinite(v) || !fp.isFinite(p) {
        assert FirstFailure(fp, dt, masses, current, i);
        return false, State(positions, velocities), accelerations';
      }
      WriteSlot(full.positions, next.positions, i, p);
      WriteSlot(full.velocities, next.velocities, i, v);
      positions := positions[i := p];
      velocities := velocities[i := v];
    }
    assert positions == full.positions && velocities == full.velocities;
    return true, State(positions, velocities), accelerations';
  }

  /** Writing slot `i` of a buffer whose first `i` slots are already written extends the written prefix. */
  lemma WriteSlot<T>(full: seq<T>, prev: seq<T>, i: nat, x: T)
    requires |full| == |prev| && i < |full| && x == full[i]
    ensures (full[..i] + prev[i..])[i := x] == full[..i + 1] + prev[i + 1..]
  {
  }

  /** Under the semi-implicit rule, the position moves by `dt·v + dt²·a`, not by `dt·v` alone. */
  lemma SymplecticOrder(fp: FloatModel, dt: real, masses: seq<real>, s: State, i: nat)
    requires Fits(masses, s) && i < |masses|
    ensures var a := Acceleration(fp, masses, s.positions, i);
      NextPosition(fp, dt, masses, s, i)
        == Add(Add(s.positions[i], Scale(dt, s.velocities[i])), Scale(dt * dt, a))
  {
    var a := Acceleration(fp, masses, s.positions, i);
    var v := s.velocities[i];
    assert NextVelocity(fp, dt, masses, s, i) == Add(v, Scale(dt, a));
    assert Scale(dt, Add(v, Scale(dt, a))) == Add(Scale(dt, v), Scale(dt * dt, a)) by {
      assert dt * (v.x + dt * a.x) == dt * v.x + (dt * dt) * a.x;
      assert dt * (v.y + dt * a.y) == dt * v.y + (dt * dt) * a.y;
      assert dt * (v.z + dt * a.z) == dt * v.z + (dt * dt) * a.z;
    }
  }
}
