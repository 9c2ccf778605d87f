/**
 * `MechanicsCore.Arrangement`: the per-arrangement body-ID counter and the
 * bounding box of a set of spherical bodies.
 */
module Arrangement {
  import opened Numbers
  import opened Vectors

  /** A body as an arrangement creates it: identity, mass, radius and centre. */
  datatype InitialBody = InitialBody(id: int, mass: real, radius: real, position: Vec3)

  /** The counter starts at -1, so the first ID handed out is 0. */
  const InitialPrevBodyID: int := -1

  /**
   * `NextBodyID => Interlocked.Increment(ref _prevBodyID)`: the incremented
   * counter, wrapping from `int.MaxValue` to `int.MinValue`, is both stored
   * and returned.
   */
  function NextBodyID(prev: int): (r: (int, int))
    requires IsInt32(prev)
    ensures r.0 == r.1 && IsInt32(r.0)
    ensures prev < Int32Max ==> r.0 == prev + 1
    ensures prev == Int32Max ==> r.0 == Int32Min
  {
    var next := Wrap32(prev + 1);
    (next, next)
  }

  /** The IDs handed out by `n` successive calls, and the counter afterwards. */
  function TakeIDs(prev: int, n: nat): (r: (seq<int>, int))
    requires IsInt32(prev)
    ensures |r.0| == n && IsInt32(r.1)
    decreases n
  {
    if n == 0 then ([], prev)
    else
      var (id, prev') := NextBodyID(prev);
      var (rest, last) := TakeIDs(prev', n - 1);
      ([id] + rest, last)
  }

  /** Successive calls on a fresh arrangement return 0, 1, 2, … while the counter stays in range. */
  lemma {:induction false} IDsCountUp(prev: int, n: nat)
    requires IsInt32(prev) && prev + n <= Int32Max
    ensures forall i :: 0 <= i < n ==> TakeIDs(prev, n).0[i] == prev + 1 + i
    ensures TakeIDs(prev, n).1 == prev + n
    decreases n
  {
    if n > 0 {
      IDsCountUp(prev + 1, n - 1);
      var rest := TakeIDs(prev + 1, n - 1).0;
      assert TakeIDs(prev, n).0 == [prev + 1] + rest;
    }
  }

  lemma FreshArrangementIDs(n: nat)
    requires n <= Int32Max + 1
    ensures forall i :: 0 <= i < n ==> TakeIDs(InitialPrevBodyID, n).0[i] == i
  {
    IDsCountUp(InitialPrevBodyID, n);
  }

  function Min(a: real, b: real): real {
    if a <= b then a else b
  }

  function Max(a: real, b: real): real {
    if a >= b then a else b
  }

  /** The running `Math.Min` over the bodies, taken in order. */
  function MinOf(s: seq<InitialBody>, f: InitialBody -> real): (r: real)
    requires s != []
    ensures forall i :: 0 <= i < |s| ==> r <= f(s[i])
    ensures exists i :: 0 <= i < |s| && r == f(s[i])
  {
    if |s| == 1 then f(s[0])
    else
      var front := s[..|s| - 1];
      var m := MinOf(front, f);
      assert forall i :: 0 <= i < |front| ==> front[i] == s[i];
      Min(m, f(s[|s| - 1]))
  }

  /** The running `Math.Max` over the bodies, taken in order. */
  function MaxOf(s: seq<InitialBody>, f: InitialBody -> real): (r: real)
    requires s != []
    ensures forall i :: 0 <= i < |s| ==> f(s[i]) <= r
    ensures exists i :: 0 <= i < |s| && r == f(s[i])
  {
    if |s| == 1 then f(s[0])
    else
      var front := s[..|s| - 1];
      var m := MaxOf(front, f);
      assert forall i :: 0 <= i < |front| ==> front[i] == s[i];
      Max(m, f(s[|s| - 1]))
  }

  /** The faces of a body's sphere along each axis. */
  function LowX(b: InitialBody): real { b.position.x - b.radius }
  function LowY(b: InitialBody): real { b.position.y - b.radius }
  function LowZ(b: InitialBody): real { b.position.z - b.radius }
  function HighX(b: InitialBody): real { b.position.x + b.radius }
  function HighY(b: InitialBody): real { b.position.y + b.radius }
  function HighZ(b: InitialBody): real { b.position.z + b.radius }

  /** A value below or at every `f(s[i])` and equal to one of them is the running minimum. */
  lemma MinOfIs(s: seq<InitialBody>, f: InitialBody -> real, lo: real, j: nat)
    requires j < |s| && f(s[j]) == lo && forall i :: 0 <= i < |s| ==> lo <= f(s[i])
    ensures MinOf(s, f) == lo
  {
  }

  lemma MaxOfIs(s: seq<InitialBody>, f: InitialBody -> real, hi: real, j: nat)
    requires j < |s| && f(s[j]) == hi && forall i :: 0 <= i < |s| ==> f(s[i]) <= hi
    ensures MaxOf(s, f) == hi
  {
  }

  /** The result of `ComputeBoundingBox`: whether there were bodies, and the two corners. */
  datatype Box = Box(any: bool, min: Vec3, max: Vec3)

  /** The body's sphere lies inside the box, on every axis. */
  predicate Contains(box: Box, b: InitialBody) {
    && box.min.x <= LowX(b) && HighX(b) <= box.max.x
    && box.min.y <= LowY(b) && HighY(b) <= box.max.y
    && box.min.z <= LowZ(b) && HighZ(b) <= box.max.z
  }

  /**
   * `ComputeBoundingBox`: for no bodies, false with the corners (-1,-1,-1)
   * and (1,1,1); otherwise true with the smallest box holding every sphere,
   * each face touched by some body.
   */
  function ComputeBoundingBox(bodies: seq<InitialBody>): (box: Box)
    ensures box.any <==> bodies != []
    ensures bodies == [] ==> box.min == Vec3(-1.0, -1.0, -1.0) && box.max == Vec3(1.0, 1.0, 1.0)
    ensures forall i :: 0 <= i < |bodies| ==> Contains(box, bodies[i])
    ensures bodies != [] ==>
      && (exists i :: 0 <= i < |bodies| && box.min.x == LowX(bodies[i]))
      && (exists i :: 0 <= i < |bodies| && box.min.y == LowY(bodies[i]))
      && (exists i :: 0 <= i < |bodies| && box.min.z == LowZ(bodies[i]))
      && (exists i :: 0 <= i < |bodies| && box.max.x == HighX(bodies[i]))
      && (exists i :: 0 <= i < |bodies| && box.max.y == HighY(bodies[i]))
      && (exists i :: 0 <= i < |bodies| && box.max.z == HighZ(bodies[i]))
  {
    if bodies == [] then Box(false, Vec3(-1.0, -1.0, -1.0), Vec3(1.0, 1.0, 1.0))
    else
      Box(true,
          Vec3(MinOf(bodies, LowX), MinOf(bodies, LowY), MinOf(bodies, LowZ)),
          Vec3(MaxOf(bodies, HighX), MaxOf(bodies, HighY), MaxOf(bodies, HighZ)))
  }
}
