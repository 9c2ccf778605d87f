/**
 * The Rust multi-step driver `try_leap`. It ping-pongs between the caller's
 * pair of buffers and a scratch pair: even-numbered steps read the caller's
 * pair and write the scratch pair, odd-numbered steps the other way round. It
 * stops at the first failed step and, when the number of completed steps is
 * odd, copies the scratch pair back into the caller's pair.
 */
module Leap {
  import opened Outcomes
  import opened Vectors
  import opened Gravity
  import opened Stepper

  /** Reference definition: the state after `k` successful steps, or nothing if one of them fails. */
  function Run(fp: FloatModel, dt: real, masses: seq<real>, s: State, k: nat): (r: Option<State>)
    requires Fits(masses, s)
    ensures r.Some? ==> Fits(masses, r.value)
  {
    if k == 0 then Some(s)
    else
      match Run(fp, dt, masses, s, k - 1)
      case None => None
      case Some(t) => Step(fp, dt, masses, t)
  }

  /** Once a step has failed, no later step count succeeds. */
  lemma {:induction false} RunFailureIsFinal(fp: FloatModel, dt: real, masses: seq<real>, s: State, k: nat, j: nat)
    requires Fits(masses, s) && k <= j && Run(fp, dt, masses, s, k).None?
    ensures Run(fp, dt, masses, s, j).None?
    decreases j - k
  {
    if k < j {
      RunFailureIsFinal(fp, dt, masses, s, k, j - 1);
    }
  }

  /** One more step from a reachable state is exactly one `Step`. */
  lemma RunOneMore(fp: FloatModel, dt: real, masses: seq<real>, s: State, k: nat)
    requires Fits(masses, s) && Run(fp, dt, masses, s, k).Some?
    ensures Run(fp, dt, masses, s, k + 1) == Step(fp, dt, masses, Run(fp, dt, masses, s, k).value)
  {
  }

  function Zeros(n: nat): (r: seq<Vec3>)
    ensures |r| == n && forall i :: 0 <= i < n ==> r[i] == Zero
  {
    seq(n, _ => Zero)
  }

  /**
   * Step number `stepI` of `try_leap`: an even step reads the caller's pair
   * and writes the scratch pair, an odd step the reverse. The pair that is
   * read is never changed; the written pair holds the successor on success.
   */
  method PingPong(fp: FloatModel, dt: real, masses: seq<real>, stepI: nat, caller: State, scratch: State, accelerations: seq<Vec3>)
    returns (success: bool, caller': State, scratch': State, accelerations': seq<Vec3>)
    requires Fits(masses, caller) && Fits(masses, scratch) && |accelerations| == |masses|
    ensures Fits(masses, caller') && Fits(masses, scratch') && |accelerations'| == |masses|
    ensures stepI % 2 == 0 ==> caller' == caller
    ensures stepI % 2 == 1 ==> scratch' == scratch
    ensures var read := if stepI % 2 == 0 then caller else scratch;
      var written := if stepI % 2 == 0 then scratch' else caller';
      && (success <==> Step(fp, dt, masses, read).Some?)
      && (success ==> written == Step(fp, dt, masses, read).value)
  {
    caller', scratch' := caller, scratch;
    if stepI % 2 == 0 {
      success, scratch', accelerations' := TryComputeStep(fp, dt, masses, caller, scratch, accelerations);
    } else {
      success, caller', accelerations' := TryComputeStep(fp, dt, masses, scratch, caller, accelerations);
    }
  }

  /** The final copy of `try_leap`: every slot of the scratch pair into the caller's pair. */
  method CopyBack(caller: State, scratch: State) returns (caller': State)
    requires |caller.positions| == |scratch.positions| == |caller.velocities| == |scratch.velocities|
    ensures caller' == scratch
  {
    var n := |scratch.positions|;
    var positions, velocities := caller.positions, caller.velocities;
    for bodyI := 0 to n
      invariant |positions| == n && |velocities| == n
      invariant positions[..bodyI] == scratch.positions[..bodyI]
      invariant velocities[..bodyI] == scratch.velocities[..bodyI]
    {
      positions := positions[bodyI := scratch.positions[bodyI]];
      velocities := velocities[bodyI := scratch.velocities[bodyI]];
    }
    assert positions == positions[..n] && velocities == velocities[..n];
    caller' := State(positions, velocities);
  }

  /**
   * The Rust `try_leap`. Returns the number `k` of completed steps and the
   * final contents of the caller's position and velocity buffers: they hold
   * exactly the state after `k` steps, whatever the parity of `k`, so the
   * partial writes of a failed step are never visible.
   */
  method TryLeap(fp: FloatModel, requested: nat, dt: real, masses: seq<real>, positions: seq<Vec3>, velocities: seq<Vec3>)
    returns (k: nat, positions': seq<Vec3>, velocities': seq<Vec3>)
    requires |positions| == |masses| && |velocities| == |masses|
    ensures k <= requested
    ensures var r := Run(fp, dt, masses, State(positions, velocities), k);
      r.Some? && r.value == State(positions', velocities')
    ensures k < requested ==> Run(fp, dt, masses, State(positions, velocities), k + 1).None?
    ensures k == requested <==> Run(fp, dt, masses, State(positions, velocities), requested).Some?
  {
    var s0 := State(positions, velocities);
    var caller, scratch;
    k, caller, scratch := StepWhileOk(fp, requested, dt, masses, s0);
    if k % 2 == 1 {
      caller := CopyBack(caller, scratch);
    }
    positions', velocities' := caller.positions, caller.velocities;
    if k < requested {
      RunFailureIsFinal(fp, dt, masses, s0, k + 1, requested);
    }
  }

  /**
   * The step loop of `try_leap`: after it, the pair last read holds the state
   * after `k` steps; the other pair may hold the partial writes of a failed step.
   */
  method StepWhileOk(fp: FloatModel, requested: nat, dt: real, masses: seq<real>, s0: State)
    returns (k: nat, caller: State, scratch: State)
    requires Fits(masses, s0)
    ensures k <= requested && Fits(masses, caller) && Fits(masses, scratch)
    ensures Run(fp, dt, masses, s0, k).Some?
    ensures k % 2 == 0 ==> caller == Run(fp, dt, masses, s0, k).value
    ensures k % 2 == 1 ==> scratch == Run(fp, dt, masses, s0, k).value
    ensures k < requested ==> Run(fp, dt, masses, s0, k + 1).None?
  {
    var n := |masses|;
    caller := s0;
    scratch := State(Zeros(n), Zeros(n));
    var accelerations := Zeros(n);
    k := 0;
    while k < requested
      invariant 0 <= k <= requested
      invariant Fits(masses, caller) && Fits(masses, scratch) && |accelerations| == n
      invariant Run(fp, dt, masses, s0, k).Some?
      invariant k % 2 == 0 ==> caller == Run(fp, dt, masses, s0, k).value
      invariant k % 2 == 1 ==> scratch == Run(fp, dt, masses, s0, k).value
    {
      RunOneMore(fp, dt, masses, s0, k);
      var success;
      success, caller, scratch, accelerations := PingPong(fp, dt, masses, k, caller, scratch, accelerations);
      if !success {
        return;
      }
      k := k + 1;
    }
  }

  /**
   * Two unit masses at the same point: the very first step fails, so no step
   * completes and the caller's buffers keep their all-zero contents.
   */
  method CoincidentBodiesMakeNoProgress(fp: FloatModel) returns (k: nat, positions: seq<Vec3>, velocities: seq<Vec3>)
    requires ZeroDivisionIsNotFinite(fp) && fp.norm(Zero) == 0.0
    ensures k == 0
    ensures positions == [Zero, Zero] && velocities == [Zero, Zero]
  {
    var masses := [1.0, 1.0];
    var s0 := State([Zero, Zero], [Zero, Zero]);
    CoincidentPairFails(fp, 1.0, masses, s0);
    k, positions, velocities := TryLeap(fp, 3, 1.0, masses, s0.positions, s0.velocities);
    if k > 0 {
      RunFailureIsFinal(fp, 1.0, masses, s0, 1, k);
    }
  }

  /** Two bodies at the same point cannot complete a first step. */
  lemma CoincidentPairFails(fp: FloatModel, dt: real, masses: seq<real>, s0: State)
    requires ZeroDivisionIsNotFinite(fp) && fp.norm(Zero) == 0.0
    requires Fits(masses, s0) && |masses| == 2 && s0.positions[0] == s0.positions[1]
    ensures Run(fp, dt, masses, s0, 1).None?
  {
    var a0 := Acceleration(fp, masses, s0.positions, 0);
    TwoBodies(fp, masses, s0.positions);
    assert a0 == OneOnOne(fp, Zero, masses[1]) by {
      assert Sub(s0.positions[1], s0.positions[0]) == Zero;
    }
    CoincidentSourceIsNotFinite(fp, masses[1]);
    assert !BodyOk(fp, dt, masses, s0, 0);
    assert Step(fp, dt, masses, s0) == None;
    RunOneMore(fp, dt, masses, s0, 0);
  }
}
