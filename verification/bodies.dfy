/** The host-side body record (`MechanicsCore.Body`) as far as the simulation loop uses it. */
module Bodies {
  import opened Vectors
  import opened BodyColors

  /**
   * A body. Its radius is derived from its volume by a cube root, so it is not
   * a field here; operations that need it take the overlap test as a parameter.
   * `alive` is the C# `Exists` flag.
   */
  datatype Body = Body(
    id: int,
    name: string,
    mass: real,
    volume: real,
    position: Vec3,
    velocity: Vec3,
    alive: bool,
    color: BodyColor)

  predicate Alive(b: Body) {
    b.alive
  }

  /** The mass a body contributes to the simulation: nothing once it has stopped existing. */
  function LiveMass(b: Body): real {
    if b.alive then b.mass else 0.0
  }

  /** Total mass of the existing bodies. */
  function TotalMass(s: seq<Body>): real {
    if s == [] then 0.0 else LiveMass(s[0]) + TotalMass(s[1..])
  }

  lemma {:induction false} TotalMassAppend(a: seq<Body>, b: seq<Body>)
    ensures TotalMass(a + b) == TotalMass(a) + TotalMass(b)
  {
    if a == [] {
      assert a + b == b;
    } else {
      assert (a + b)[1..] == a[1..] + b;
      TotalMassAppend(a[1..], b);
    }
  }

  /** Replacing one body changes the total by the difference of the two live masses. */
  lemma TotalMassUpdate(s: seq<Body>, i: nat, b: Body)
    requires i < |s|
    ensures TotalMass(s[i := b]) == TotalMass(s) - LiveMass(s[i]) + LiveMass(b)
  {
    assert s == s[..i] + [s[i]] + s[i + 1..];
    assert s[i := b] == s[..i] + [b] + s[i + 1..];
    TotalMassAppend(s[..i] + [s[i]], s[i + 1..]);
    TotalMassAppend(s[..i], [s[i]]);
    TotalMassAppend(s[..i] + [b], s[i + 1..]);
    TotalMassAppend(s[..i], [b]);
  }
}
