/**
 * `PhysicsConfiguration`: how the simulation proceeds at each step, with its
 * constructor-parameter round trip and its summary lines.
 */
module PhysicsConfig {
  import opened Outcomes

  datatype GravityType = GravityNone | NewtonPointlike | NewtonLinearAfterTouching | NewtonBuoyant

  datatype CollisionType = CollisionNone | Combine | Drag

  datatype PhysicsConfiguration = PhysicsConfiguration(
    stepTime: real,
    gravityConfig: GravityType,
    buoyantGravityRatio: real,
    collisionConfig: CollisionType,
    dragCoefficient: real)

  /**
   * The parameterless constructor: every property keeps its initializer, so
   * the buoyant gravity ratio and the drag coefficient start at 1 and the
   * rest at the default of its type.
   */
  function Default(): (c: PhysicsConfiguration)
    ensures c.buoyantGravityRatio == 1.0 && c.dragCoefficient == 1.0
    ensures c.stepTime == 0.0 && c.gravityConfig == GravityNone && c.collisionConfig == CollisionNone
  {
    PhysicsConfiguration(0.0, GravityNone, 1.0, CollisionNone, 1.0)
  }

  /** One element of an `object?[]` of constructor parameters. */
  datatype Parameter = RealParameter(r: real) | GravityParameter(g: GravityType) | CollisionParameter(c: CollisionType)

  /** `GetConstructorParameters`: the five constructor arguments, in declaration order. */
  function GetConstructorParameters(c: PhysicsConfiguration): (ps: seq<Parameter>)
    ensures |ps| == 5
  {
    [RealParameter(c.stepTime), GravityParameter(c.gravityConfig), RealParameter(c.buoyantGravityRatio),
     CollisionParameter(c.collisionConfig), RealParameter(c.dragCoefficient)]
  }

  /**
   * Invoking the five-argument constructor with a parameter array: only an
   * array of five arguments of the declared types selects it.
   */
  function Construct(ps: seq<Parameter>): (r: Option<PhysicsConfiguration>)
    ensures r.Some? <==> |ps| == 5 && ps[0].RealParameter? && ps[1].GravityParameter?
                         && ps[2].RealParameter? && ps[3].CollisionParameter? && ps[4].RealParameter?
  {
    if |ps| == 5 && ps[0].RealParameter? && ps[1].GravityParameter? && ps[2].RealParameter?
       && ps[3].CollisionParameter? && ps[4].RealParameter?
    then Some(PhysicsConfiguration(ps[0].r, ps[1].g, ps[2].r, ps[3].c, ps[4].r))
    else None
  }

  /** Feeding `GetConstructorParameters` back to the constructor reproduces the configuration. */
  lemma ConstructorRoundTrip(c: PhysicsConfiguration)
    ensures Construct(GetConstructorParameters(c)) == Some(c)
  {
  }

  /** Conversely, any configuration the constructor builds reports exactly the arguments it was given. */
  lemma ParametersRoundTrip(ps: seq<Parameter>)
    requires Construct(ps).Some?
    ensures GetConstructorParameters(Construct(ps).value) == ps
  {
  }

  /** The enum member names that string interpolation prints. */
  function GravityName(g: GravityType): string {
    match g
    case GravityNone => "None"
    case NewtonPointlike => "Newton_Pointlike"
    case NewtonLinearAfterTouching => "Newton_LinearAfterTouching"
    case NewtonBuoyant => "Newton_Buoyant"
  }

  function CollisionName(c: CollisionType): string {
    match c
    case CollisionNone => "None"
    case Combine => "Combine"
    case Drag => "Drag"
  }

  predicate HasPrefix(s: string, prefix: string) {
    |prefix| <= |s| && s[..|prefix|] == prefix
  }

  /**
   * `GetConfigLines`. Number formatting (`Simulation.DoubleToString`) is the
   * parameter `format`. The step-time, gravity and collision lines are always
   * present, in that order; the buoyant-ratio line appears exactly for buoyant
   * gravity, right after the gravity line, and the drag line exactly for drag
   * collisions, last.
   */
  function GetConfigLines(c: PhysicsConfiguration, format: real -> string): (lines: seq<string>)
    ensures 3 <= |lines| <= 5
    ensures |lines| == 3 + (if c.gravityConfig == NewtonBuoyant then 1 else 0) + (if c.collisionConfig == Drag then 1 else 0)
    ensures HasPrefix(lines[0], "Step time: ")
    ensures lines[1] == "Gravity: " + GravityName(c.gravityConfig)
    ensures (exists i :: 0 <= i < |lines| && HasPrefix(lines[i], "Buoyant gravity ratio: ")) <==> c.gravityConfig == NewtonBuoyant
    ensures (exists i :: 0 <= i < |lines| && HasPrefix(lines[i], "Drag coefficient: ")) <==> c.collisionConfig == Drag
    ensures c.gravityConfig == NewtonBuoyant ==> HasPrefix(lines[2], "Buoyant gravity ratio: ")
    ensures c.collisionConfig == Drag ==> HasPrefix(lines[|lines| - 1], "Drag coefficient: ")
    ensures "Collision handling: " + CollisionName(c.collisionConfig) in lines
  {
    var stepLine := "Step time: " + format(c.stepTime);
    var gravityLines :=
      ["Gravity: " + GravityName(c.gravityConfig)]
      + (if c.gravityConfig == NewtonBuoyant then ["Buoyant gravity ratio: " + format(c.buoyantGravityRatio)] else []);
    var collisionLines :=
      ["Collision handling: " + CollisionName(c.collisionConfig)]
      + (if c.collisionConfig == Drag then ["Drag coefficient: " + format(c.dragCoefficient)] else []);
    var lines := [stepLine] + gravityLines + collisionLines;
    LineKinds(c, format, lines);
    lines
  }

  /** No fixed line is mistaken for an optional one: they start differently. */
  lemma LineKinds(c: PhysicsConfiguration, format: real -> string, lines: seq<string>)
    requires lines ==
      ["Step time: " + format(c.stepTime)]
      + (["Gravity: " + GravityName(c.gravityConfig)]
         + (if c.gravityConfig == NewtonBuoyant then ["Buoyant gravity ratio: " + format(c.buoyantGravityRatio)] else []))
      + (["Collision handling: " + CollisionName(c.collisionConfig)]
         + (if c.collisionConfig == Drag then ["Drag coefficient: " + format(c.dragCoefficient)] else []))
    ensures (exists i :: 0 <= i < |lines| && HasPrefix(lines[i], "Buoyant gravity ratio: ")) <==> c.gravityConfig == NewtonBuoyant
    ensures (exists i :: 0 <= i < |lines| && HasPrefix(lines[i], "Drag coefficient: ")) <==> c.collisionConfig == Drag
  {
    var b := "Buoyant gravity ratio: ";
    var d := "Drag coefficient: ";
    forall i | 0 <= i < |lines|
      ensures HasPrefix(lines[i], b) ==> c.gravityConfig == NewtonBuoyant && i == 2
      ensures HasPrefix(lines[i], d) ==> c.collisionConfig == Drag && i == |lines| - 1
    {
      if HasPrefix(lines[i], b) || HasPrefix(lines[i], d) {
        var s := lines[i];
        assert s[0] == b[0] || s[0] == d[0];
      }
    }
    if c.gravityConfig == NewtonBuoyant {
      assert HasPrefix(lines[2], b);
    }
    if c.collisionConfig == Drag {
      assert HasPrefix(lines[|lines| - 1], d);
    }
  }

  /**
   * `CanTakeSimpleShortcut`: the pointlike-gravity shortcut is switched off,
   * so every step takes the general path.
   */
  function CanTakeSimpleShortcut(c: PhysicsConfiguration): (r: bool)
    ensures !r
  {
    false
  }
}
