/**
 * `MechanicsCore.Arrangements.Line`: identical bodies in a row along the x
 * axis, each touching the next.
 */
module LineArrangement {
  import opened Numbers
  import opened Vectors
  import opened Outcomes
  import opened Arrangement

  /** The constructor arguments and the inherited body-ID counter. */
  datatype Line = Line(numBodies: int, bodyMass: real, bodyRadius: real, prevBodyID: int)

  /** `new Line(numBodies, bodyMass, bodyRadius)`: the counter starts fresh. */
  function NewLine(numBodies: int, bodyMass: real, bodyRadius: real): (l: Line)
    requires IsInt32(numBodies)
    ensures l.prevBodyID == InitialPrevBodyID
  {
    Line(numBodies, bodyMass, bodyRadius, InitialPrevBodyID)
  }

  datatype Parameter = IntParameter(i: int) | RealParameter(r: real)

  /** `GetConstructorParameters`: `[numBodies, bodyMass, bodyRadius]`. */
  function GetConstructorParameters(l: Line): (ps: seq<Parameter>)
    ensures |ps| == 3
  {
    [IntParameter(l.numBodies), RealParameter(l.bodyMass), RealParameter(l.bodyRadius)]
  }

  /** Invoking the constructor with a parameter array of three arguments of the declared types. */
  function Construct(ps: seq<Parameter>): (r: Option<Line>)
    ensures r.Some? <==> |ps| == 3 && ps[0].IntParameter? && IsInt32(ps[0].i) && ps[1].RealParameter? && ps[2].RealParameter?
    ensures r.Some? ==> r.value.prevBodyID == InitialPrevBodyID
  {
    if |ps| == 3 && ps[0].IntParameter? && IsInt32(ps[0].i) && ps[1].RealParameter? && ps[2].RealParameter?
    then Some(NewLine(ps[0].i, ps[1].r, ps[2].r))
    else None
  }

  /** The parameters reported are the ones the constructor was given, and they rebuild the same line. */
  lemma ConstructorRoundTrip(numBodies: int, bodyMass: real, bodyRadius: real)
    requires IsInt32(numBodies)
    ensures GetConstructorParameters(NewLine(numBodies, bodyMass, bodyRadius))
         == [IntParameter(numBodies), RealParameter(bodyMass), RealParameter(bodyRadius)]
    ensures Construct(GetConstructorParameters(NewLine(numBodies, bodyMass, bodyRadius)))
         == Some(NewLine(numBodies, bodyMass, bodyRadius))
  {
  }

  /** Centre of body `i`: `(i * 2 + 1) * radius`, the factor computed in 32-bit `int`. */
  function CentreX(i: int, radius: real): real {
    Wrap32(i * 2 + 1) as real * radius
  }

  /** The bodies, the two display bounds, and the line with its counter advanced. */
  datatype Generated = Generated(bodies: seq<InitialBody>, bound0: Vec3, bound1: Vec3, line: Line)

  /**
   * `GenerateInitialState`: `numBodies` bodies with the given mass and radius,
   * body `i` centred at `((2i+1)·r, 0, 0)` with the next body ID, and the
   * display bounds `(0, -r, -r)` and `(2n·r, r, r)`. A negative count is
   * refused by the array allocation.
   */
  function GenerateInitialState(l: Line): (r: Result<Generated>)
    requires IsInt32(l.numBodies) && IsInt32(l.prevBodyID)
    ensures l.numBodies < 0 <==> r == Err(Overflow)
    ensures r.Ok? ==> |r.value.bodies| == l.numBodies
    ensures r.Ok? ==> forall i :: 0 <= i < |r.value.bodies| ==>
      && r.value.bodies[i].mass == l.bodyMass && r.value.bodies[i].radius == l.bodyRadius
      && r.value.bodies[i].position == Vec3(CentreX(i, l.bodyRadius), 0.0, 0.0)
    ensures r.Ok? ==>
      r.value.line.numBodies == l.numBodies && r.value.line.bodyMass == l.bodyMass && r.value.line.bodyRadius == l.bodyRadius
  {
    if l.numBodies < 0 then Err(Overflow)
    else
      var n := l.numBodies;
      var (ids, prev') := TakeIDs(l.prevBodyID, n);
      var bodies := seq(n, i requires 0 <= i < n =>
        InitialBody(ids[i], l.bodyMass, l.bodyRadius, Vec3(CentreX(i, l.bodyRadius), 0.0, 0.0)));
      var r := l.bodyRadius;
      Ok(Generated(bodies, Vec3(0.0, -r, -r), Vec3(Wrap32(n * 2) as real * r, r, r), l.(prevBodyID := prev')))
  }

  /** The largest count for which `i * 2 + 1` and `numBodies * 2` stay inside `int`. */
  const MaxExactCount: int := 0x3FFF_FFFF

  /** On a fresh line the bodies get IDs 0, 1, 2, … */
  lemma FreshLineIDs(l: Line)
    requires IsInt32(l.numBodies) && 0 <= l.numBodies && l.prevBodyID == InitialPrevBodyID
    ensures var r := GenerateInitialState(l);
      forall i :: 0 <= i < |r.value.bodies| ==> r.value.bodies[i].id == i
  {
    FreshArrangementIDs(l.numBodies);
  }

  /** Consecutive centres are exactly one diameter apart, so each body touches the next. */
  lemma NeighboursTouch(l: Line, i: nat)
    requires IsInt32(l.numBodies) && IsInt32(l.prevBodyID) && l.numBodies <= MaxExactCount
    requires i + 1 < l.numBodies
    ensures var bs := GenerateInitialState(l).value.bodies;
      bs[i + 1].position.x - bs[i].position.x == 2.0 * l.bodyRadius
      && bs[i + 1].position.y == bs[i].position.y && bs[i + 1].position.z == bs[i].position.z
  {
    var r := l.bodyRadius;
    assert CentreX(i, r) == (2 * i + 1) as real * r;
    assert CentreX(i + 1, r) == (2 * i + 3) as real * r;
  }

  /** With a non-negative radius, body `i` spans `[2i·r, (2i+2)·r]` along x, inside `[0, 2n·r]`. */
  lemma BodyWithinLine(r: real, n: nat, i: nat)
    requires r >= 0.0 && i < n <= MaxExactCount
    ensures CentreX(i, r) - r == (2 * i) as real * r
    ensures CentreX(i, r) + r == (2 * i + 2) as real * r
    ensures 0.0 <= CentreX(i, r) - r && CentreX(i, r) + r <= (2 * n) as real * r
  {
    assert CentreX(i, r) == (2 * i + 1) as real * r;
    var k := i as real;
    var m := n as real;
    assert (2 * i + 1) as real == 2.0 * k + 1.0;
    assert (2 * i) as real == 2.0 * k && (2 * i + 2) as real == 2.0 * k + 2.0 && (2 * n) as real == 2.0 * m;
    assert k * r >= 0.0;
    var d := m - k - 1.0;
    assert d >= 0.0;
    assert d * r >= 0.0;
    assert 2.0 * m * r - (2.0 * k + 2.0) * r == 2.0 * (d * r);
  }

  /**
   * For a non-negative radius the display bounds are exactly the bounding box
   * of the bodies: every sphere lies within them and each face is touched.
   */
  lemma BoundsAreBoundingBox(l: Line)
    requires IsInt32(l.numBodies) && IsInt32(l.prevBodyID) && 0 < l.numBodies <= MaxExactCount
    requires l.bodyRadius >= 0.0
    ensures var g := GenerateInitialState(l).value;
      ComputeBoundingBox(g.bodies) == Box(true, g.bound0, g.bound1)
  {
    var g := GenerateInitialState(l).value;
    var n := l.numBodies;
    var r := l.bodyRadius;
    var bs := g.bodies;
    var top := (2 * n) as real * r;
    assert IsInt32(n * 2);
    assert g.bound0 == Vec3(0.0, -r, -r) && g.bound1 == Vec3(top, r, r);
    LineFaces(bs, r, n);
    LowFaces(bs, r);
    HighFaces(bs, r, top);
  }

  /** The lowest faces of the line: `x = 0` at the first body, `y = z = -r` everywhere. */
  lemma LowFaces(bs: seq<InitialBody>, r: real)
    requires bs != [] && LowX(bs[0]) == 0.0
    requires forall i :: 0 <= i < |bs| ==> 0.0 <= LowX(bs[i]) && LowY(bs[i]) == -r && LowZ(bs[i]) == -r
    ensures MinOf(bs, LowX) == 0.0 && MinOf(bs, LowY) == -r && MinOf(bs, LowZ) == -r
  {
    MinOfIs(bs, LowX, 0.0, 0);
    MinOfIs(bs, LowY, -r, 0);
    MinOfIs(bs, LowZ, -r, 0);
  }

  /** The highest faces of the line: `x = top` at the last body, `y = z = r` everywhere. */
  lemma HighFaces(bs: seq<InitialBody>, r: real, top: real)
    requires bs != [] && HighX(bs[|bs| - 1]) == top
    requires forall i :: 0 <= i < |bs| ==> HighX(bs[i]) <= top && HighY(bs[i]) == r && HighZ(bs[i]) == r
    ensures MaxOf(bs, HighX) == top && MaxOf(bs, HighY) == r && MaxOf(bs, HighZ) == r
  {
    MaxOfIs(bs, HighX, top, |bs| - 1);
    MaxOfIs(bs, HighY, r, 0);
    MaxOfIs(bs, HighZ, r, 0);
  }

  lemma LineFaces(bs: seq<InitialBody>, r: real, n: nat)
    requires r >= 0.0 && 0 < n <= MaxExactCount && |bs| == n
    requires forall i :: 0 <= i < n ==> bs[i].radius == r && bs[i].position == Vec3(CentreX(i, r), 0.0, 0.0)
    ensures forall i :: 0 <= i < n ==> 0.0 <= LowX(bs[i]) && HighX(bs[i]) <= (2 * n) as real * r
    ensures forall i :: 0 <= i < n ==> LowY(bs[i]) == -r && LowZ(bs[i]) == -r && HighY(bs[i]) == r && HighZ(bs[i]) == r
    ensures LowX(bs[0]) == 0.0 && HighX(bs[n - 1]) == (2 * n) as real * r
  {
    forall i | 0 <= i < n
      ensures 0.0 <= LowX(bs[i]) && HighX(bs[i]) <= (2 * n) as real * r
    {
      BodyWithinLine(r, n, i);
    }
    BodyWithinLine(r, n, 0);
    BodyWithinLine(r, n, n - 1);
  }
}
