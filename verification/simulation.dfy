/**
 * The host-side step loop of `MechanicsCore.Simulation`: `TryComputeStep`,
 * `ApplyStep`, `TryLeap` and `Leap`.
 *
 * The physics of one body's step (`Body.ComputeAcceleration` and
 * `Body.ComputeStep`) is the parameter `stepBody`: given all bodies and an
 * index it either yields the body's next position and velocity or fails with
 * the message of a `StepFailedException`. The `Parallel.For` loops are
 * modelled as loops in index order, reporting the first failing body.
 */
module Simulation {
  import opened Outcomes
  import opened Vectors
  import opened Bodies
  import opened PhysicsConfig
  import Merging

  datatype BodyStep = BodyFailed(message: string) | BodyMoved(position: Vec3, velocity: Vec3)

  /** The result of `ComputeStep`: the scratch arrays `p` and `v`, or the exception's message. */
  datatype Computed = StepFailed(message: string) | Moves(positions: seq<Vec3>, velocities: seq<Vec3>)

  /** The mutable state of a simulation that the step loop reads and writes. */
  datatype Sim = Sim(
    config: PhysicsConfiguration,
    bodies: seq<Body>,
    numStepsPerformed: int,
    hasError: bool,
    latestErrorMessage: Option<string>)

  /** `ElapsedTime => NumStepsPerformed * PhysicsConfig.StepTime`. */
  function ElapsedTime(s: Sim): real {
    s.numStepsPerformed as real * s.config.stepTime
  }

  /** The computation for bodies `i..` of `ComputeStep`. */
  function ComputeFrom(bodies: seq<Body>, stepBody: (seq<Body>, nat) -> BodyStep, i: nat): (r: Computed)
    requires i <= |bodies|
    ensures r.Moves? <==> forall j :: i <= j < |bodies| ==> stepBody(bodies, j).BodyMoved?
    ensures r.Moves? ==> |r.positions| == |r.velocities| == |bodies| - i
    ensures r.Moves? ==> forall j :: i <= j < |bodies| ==>
      r.positions[j - i] == stepBody(bodies, j).position && r.velocities[j - i] == stepBody(bodies, j).velocity
    ensures r.StepFailed? ==>
      exists j :: i <= j < |bodies| && stepBody(bodies, j) == BodyFailed(r.message)
        && forall k :: i <= k < j ==> stepBody(bodies, k).BodyMoved?
    decreases |bodies| - i
  {
    if i == |bodies| then Moves([], [])
    else match stepBody(bodies, i)
      case BodyFailed(msg) => StepFailed(msg)
      case BodyMoved(p, v) =>
        var rest := ComputeFrom(bodies, stepBody, i + 1);
        if rest.StepFailed? then rest else Moves([p] + rest.positions, [v] + rest.velocities)
  }

  /**
   * `ComputeStep`: every body's next position and velocity, computed from
   * the bodies as they are; the bodies themselves are only read.
   */
  function ComputeStep(bodies: seq<Body>, stepBody: (seq<Body>, nat) -> BodyStep): (r: Computed)
    ensures r.Moves? <==> forall j :: 0 <= j < |bodies| ==> stepBody(bodies, j).BodyMoved?
    ensures r.Moves? ==> |r.positions| == |r.velocities| == |bodies|
    ensures r.Moves? ==> forall j :: 0 <= j < |bodies| ==>
      r.positions[j] == stepBody(bodies, j).position && r.velocities[j] == stepBody(bodies, j).velocity
    ensures r.StepFailed? ==> exists j :: 0 <= j < |bodies| && stepBody(bodies, j) == BodyFailed(r.message)
  {
    ComputeFrom(bodies, stepBody, 0)
  }

  /**
   * `TryComputeStep`. Its handler catches `StepFailedException`, but every
   * exception of `ComputeStep` leaves the `Parallel.For` that raised it
   * wrapped in an `AggregateException`, so the handler never runs: a failed
   * step escapes to the caller, and the simulation, `HasError` and
   * `LatestErrorMessage` included, is left as it was.
   */
  function TryComputeStep(s: Sim, stepBody: (seq<Body>, nat) -> BodyStep): (r: Result<Computed>)
    ensures r.Ok? <==> forall j :: 0 <= j < |s.bodies| ==> stepBody(s.bodies, j).BodyMoved?
    ensures r.Ok? ==> r.value.Moves? && r.value == ComputeStep(s.bodies, stepBody)
    ensures r.Err? ==>
      && r.error.Aggregate? && r.error.inner.StepFailure?
      && exists j :: 0 <= j < |s.bodies| && stepBody(s.bodies, j) == BodyFailed(r.error.inner.message)
  {
    match ComputeStep(s.bodies, stepBody)
    case StepFailed(msg) => Err(Aggregate(StepFailure(msg)))
    case Moves(p, v) => Ok(Moves(p, v))
  }

  /** `body.Step(p[i], v[i])` for every body. */
  function MoveBodies(bodies: seq<Body>, positions: seq<Vec3>, velocities: seq<Vec3>): (r: seq<Body>)
    requires |positions| == |velocities| == |bodies|
    ensures |r| == |bodies|
    ensures forall i :: 0 <= i < |bodies| ==>
      r[i] == bodies[i].(position := positions[i], velocity := velocities[i])
  {
    seq(|bodies|, i requires 0 <= i < |bodies| => bodies[i].(position := positions[i], velocity := velocities[i]))
  }

  /**
   * `ApplyStep`: move every body, merge overlapping bodies when the collision
   * handling is `Combine`, and count the step. Merging can throw (a group of
   * zero total mass, or a colour average outside a byte), and then the step
   * is not counted.
   */
  method ApplyStep(s: Sim, positions: seq<Vec3>, velocities: seq<Vec3>, overlaps: (Body, Body) -> bool)
    returns (r: Result<Sim>)
    requires |positions| == |velocities| == |s.bodies|
    ensures r.Ok? ==> r.value.numStepsPerformed == s.numStepsPerformed + 1
    ensures r.Ok? ==>
      r.value.config == s.config && r.value.hasError == s.hasError && r.value.latestErrorMessage == s.latestErrorMessage
    ensures s.config.collisionConfig != Combine ==>
      r == Ok(s.(bodies := MoveBodies(s.bodies, positions, velocities), numStepsPerformed := s.numStepsPerformed + 1))
    ensures r.Err? ==> s.config.collisionConfig == Combine && (r.error == DivideByZero || r.error == Overflow)
    ensures r.Ok? && (forall i :: 0 <= i < |s.bodies| ==> s.bodies[i].alive) ==> TotalMass(r.value.bodies) == TotalMass(s.bodies)
  {
    var moved := MoveBodies(s.bodies, positions, velocities);
    assert forall i :: 0 <= i < |moved| ==> LiveMass(moved[i]) == LiveMass(s.bodies[i]);
    SameLiveMass(moved, s.bodies);
    var bodies := moved;
    if s.config.collisionConfig == Combine {
      var merged, _, _, _ := Merging.CombineOverlappingBodies(moved, overlaps);
      if merged.Err? {
        return Err(merged.error);
      }
      bodies := merged.value;
    }
    r := Ok(s.(bodies := bodies, numStepsPerformed := s.numStepsPerformed + 1));
  }

  lemma {:induction false} SameLiveMass(a: seq<Body>, b: seq<Body>)
    requires |a| == |b|
    requires forall i :: 0 <= i < |a| ==> LiveMass(a[i]) == LiveMass(b[i])
    ensures TotalMass(a) == TotalMass(b)
  {
    if a != [] {
      SameLiveMass(a[1..], b[1..]);
    }
  }

  /** The bodies after `k` steps when nothing fails and no bodies merge. */
  function Advance(bodies: seq<Body>, stepBody: (seq<Body>, nat) -> BodyStep, k: nat): Option<seq<Body>> {
    if k == 0 then Some(bodies)
    else match Advance(bodies, stepBody, k - 1)
      case None => None
      case Some(prev) =>
        var c := ComputeStep(prev, stepBody);
        if c.StepFailed? then None else Some(MoveBodies(prev, c.positions, c.velocities))
  }

  /**
   * `TryLeap(numSteps)`: up to `numSteps` rounds of compute-then-apply. A
   * failed compute is never caught (see `TryComputeStep`), so the result is
   * never false: either every requested step is applied, or the failure of
   * the first round that could not finish escapes as `Err`, and the
   * simulation keeps the steps applied before it. Without merging, the
   * bodies are those after exactly the applied number of steps.
   */
  method TryLeap(s: Sim, numSteps: int, stepBody: (seq<Body>, nat) -> BodyStep, overlaps: (Body, Body) -> bool)
    returns (r: Result<bool>, s': Sim)
    ensures r.Ok? ==> r.value
    ensures s'.config == s.config && s'.hasError == s.hasError && s'.latestErrorMessage == s.latestErrorMessage
    ensures var k := s'.numStepsPerformed - s.numStepsPerformed;
      && 0 <= k && k <= (if numSteps > 0 then numSteps else 0)
      && (r.Ok? <==> k == (if numSteps > 0 then numSteps else 0))
      && ElapsedTime(s') == ElapsedTime(s) + k as real * s.config.stepTime
    ensures r.Err? && r.error.Aggregate? <==> r.Err? && ComputeStep(s'.bodies, stepBody).StepFailed?
    ensures r.Err? && r.error.Aggregate? ==> r.error.inner == StepFailure(ComputeStep(s'.bodies, stepBody).message)
    ensures r.Err? && !r.error.Aggregate? ==>
      s.config.collisionConfig == Combine && (r.error == DivideByZero || r.error == Overflow)
    ensures s.config.collisionConfig != Combine ==>
      Advance(s.bodies, stepBody, s'.numStepsPerformed - s.numStepsPerformed) == Some(s'.bodies)
    ensures r.Err? && s.config.collisionConfig != Combine ==>
      Advance(s.bodies, stepBody, s'.numStepsPerformed - s.numStepsPerformed + 1) == None
  {
    s' := s;
    var i := 0;
    while i < numSteps
      invariant 0 <= i && (numSteps > 0 ==> i <= numSteps) && (numSteps <= 0 ==> i == 0)
      invariant s'.config == s.config && s'.hasError == s.hasError && s'.latestErrorMessage == s.latestErrorMessage
      invariant s'.numStepsPerformed == s.numStepsPerformed + i
      invariant s.config.collisionConfig != Combine ==> Advance(s.bodies, stepBody, i) == Some(s'.bodies)
    {
      var round := Round(s', stepBody, overlaps);
      if round.Err? {
        if s.config.collisionConfig != Combine {
          AdvanceFails(s.bodies, stepBody, i, s'.bodies);
        }
        ElapsedAfter(s, s', i);
        return Err(round.error), s';
      }
      if s.config.collisionConfig != Combine {
        AdvanceMoves(s.bodies, stepBody, i, s'.bodies);
      }
      s' := round.value;
      i := i + 1;
    }
    ElapsedAfter(s, s', i);
    r := Ok(true);
  }

  /**
   * One round of the loop of `TryLeap`: compute the step and apply it. A
   * failed compute escapes as the `AggregateException` of `TryComputeStep`;
   * an exception from merging escapes as it is.
   */
  method Round(s: Sim, stepBody: (seq<Body>, nat) -> BodyStep, overlaps: (Body, Body) -> bool)
    returns (r: Result<Sim>)
    ensures r.Err? && r.error.Aggregate? <==> ComputeStep(s.bodies, stepBody).StepFailed?
    ensures r.Err? && r.error.Aggregate? ==> r.error.inner == StepFailure(ComputeStep(s.bodies, stepBody).message)
    ensures r.Err? && !r.error.Aggregate? ==>
      s.config.collisionConfig == Combine && (r.error == DivideByZero || r.error == Overflow)
    ensures r.Ok? ==>
      && r.value.numStepsPerformed == s.numStepsPerformed + 1 && r.value.config == s.config
      && r.value.hasError == s.hasError && r.value.latestErrorMessage == s.latestErrorMessage
    ensures r.Ok? && s.config.collisionConfig != Combine ==>
      var c := ComputeStep(s.bodies, stepBody);
      c.Moves? && r.value.bodies == MoveBodies(s.bodies, c.positions, c.velocities)
  {
    var c := TryComputeStep(s, stepBody);
    if c.Err? {
      return Err(c.error);
    }
    r := ApplyStep(s, c.value.positions, c.value.velocities, overlaps);
  }

  lemma AdvanceMoves(bodies: seq<Body>, stepBody: (seq<Body>, nat) -> BodyStep, k: nat, prev: seq<Body>)
    requires Advance(bodies, stepBody, k) == Some(prev) && ComputeStep(prev, stepBody).Moves?
    ensures var c := ComputeStep(prev, stepBody);
      Advance(bodies, stepBody, k + 1) == Some(MoveBodies(prev, c.positions, c.velocities))
  {
  }

  lemma AdvanceFails(bodies: seq<Body>, stepBody: (seq<Body>, nat) -> BodyStep, k: nat, prev: seq<Body>)
    requires Advance(bodies, stepBody, k) == Some(prev) && ComputeStep(prev, stepBody).StepFailed?
    ensures Advance(bodies, stepBody, k + 1) == None
  {
  }

  lemma ElapsedAfter(s: Sim, s': Sim, k: nat)
    requires s'.config == s.config && s'.numStepsPerformed == s.numStepsPerformed + k
    ensures ElapsedTime(s') == ElapsedTime(s) + k as real * s.config.stepTime
  {
    assert s'.numStepsPerformed as real == s.numStepsPerformed as real + k as real;
  }

  /**
   * `Leap(numSteps)`: `TryLeap`, throwing `new Exception(LatestErrorMessage)`
   * when it returns false. It never does, so what `Leap` throws is what
   * escapes `TryLeap`; the simulation keeps the state it reached either way.
   */
  method Leap(s: Sim, numSteps: int, stepBody: (seq<Body>, nat) -> BodyStep, overlaps: (Body, Body) -> bool)
    returns (thrown: Option<Exception>, s': Sim)
    ensures thrown.None? <==> s'.numStepsPerformed == s.numStepsPerformed + (if numSteps > 0 then numSteps else 0)
    ensures s'.hasError == s.hasError && s'.latestErrorMessage == s.latestErrorMessage
    ensures thrown.Some? ==> !thrown.value.Thrown?
    ensures thrown.Some? && thrown.value.Aggregate? ==>
      var c := ComputeStep(s'.bodies, stepBody);
      c.StepFailed? && thrown.value.inner == StepFailure(c.message)
    ensures thrown.Some? && !thrown.value.Aggregate? ==> s.config.collisionConfig == Combine
  {
    var r;
    r, s' := TryLeap(s, numSteps, stepBody, overlaps);
    thrown := if r.Err? then Some(r.error) else None;
  }
}
