/**
 * The body lists of `MechanicsUI.RenderVM`: `BodyVMs`, the view models of
 * the bodies still in the simulation, and `BodyVMsByDistance`, the ten of
 * them nearest the mouse pointer, nearest first. Body view models are an
 * abstract type `B`; the distance from a body's panel centre to a point is a
 * parameter, as are the `Exists` flags of the bodies. The canvas scaling of
 * `RefreshBounds` is left out, except for its `Sort` helper.
 */
module Render {
  import opened Outcomes
  import opened Lists

  /** `RenderVM.Sort(a, b, out min, out max)`. */
  function Sort(a: real, b: real): (r: (real, real))
    ensures r.0 <= r.1
    ensures (r.0 == a && r.1 == b) || (r.0 == b && r.1 == a)
  {
    if a > b then (b, a) else (a, b)
  }

  /** The order of the arguments does not matter. */
  lemma SortSymmetric(a: real, b: real)
    ensures Sort(a, b) == Sort(b, a)
  {
  }

  /** How many body view models `ComputeByDistance` keeps. */
  const Shown: nat := 10

  /**
   * The order `OrderBy` produces, as a strict total order on positions:
   * a smaller key first, and equal keys in their original order (the sort
   * is stable).
   */
  predicate Before(keys: seq<real>, i: nat, j: nat)
    requires i < |keys| && j < |keys|
  {
    keys[i] < keys[j] || (keys[i] == keys[j] && i < j)
  }

  /** Positions into `keys`, each strictly before the next. */
  predicate SortedBy(keys: seq<real>, s: seq<nat>) {
    && (forall k :: 0 <= k < |s| ==> s[k] < |keys|)
    && (forall a, b :: 0 <= a < b < |s| ==> Before(keys, s[a], s[b]))
  }

  /** Insert position `x` in front of the first position it comes before. */
  function Insert(keys: seq<real>, x: nat, s: seq<nat>): (r: seq<nat>)
    requires x < |keys|
    ensures multiset(r) == multiset(s) + multiset{x}
    ensures (forall k :: 0 <= k < |s| ==> s[k] < |keys|) ==> forall k :: 0 <= k < |r| ==> r[k] < |keys|
  {
    if s == [] then [x]
    else if s[0] < |keys| && Before(keys, x, s[0]) then [x] + s
    else
      var r := [s[0]] + Insert(keys, x, s[1..]);
      assert s == [s[0]] + s[1..];
      r
  }

  lemma {:induction false} InsertSorted(keys: seq<real>, x: nat, s: seq<nat>)
    requires x < |keys| && SortedBy(keys, s) && x !in s
    ensures SortedBy(keys, Insert(keys, x, s))
    decreases |s|
  {
    if s != [] && !Before(keys, x, s[0]) {
      var t := s[1..];
      InsertSorted(keys, x, t);
      var it := Insert(keys, x, t);
      assert Before(keys, s[0], x);
      FirstBeforeInserted(keys, x, s);
      ConsSorted(keys, s[0], it);
    }
  }

  /** The head of a sorted sequence comes before everything inserted into its tail. */
  lemma FirstBeforeInserted(keys: seq<real>, x: nat, s: seq<nat>)
    requires x < |keys| && SortedBy(keys, s) && s != [] && Before(keys, s[0], x)
    ensures forall k :: 0 <= k < |Insert(keys, x, s[1..])| ==> Before(keys, s[0], Insert(keys, x, s[1..])[k])
  {
    var t := s[1..];
    var it := Insert(keys, x, t);
    forall k | 0 <= k < |it|
      ensures Before(keys, s[0], it[k])
    {
      assert it[k] in multiset(it);
      if it[k] != x {
        assert it[k] in multiset(t);
        var m :| 0 <= m < |t| && t[m] == it[k];
        assert s[m + 1] == it[k];
      }
    }
  }

  /** Putting a position in front of a sorted sequence of positions it comes before keeps it sorted. */
  lemma ConsSorted(keys: seq<real>, y: nat, t: seq<nat>)
    requires y < |keys| && SortedBy(keys, t)
    requires forall k :: 0 <= k < |t| ==> Before(keys, y, t[k])
    ensures SortedBy(keys, [y] + t)
  {
    var r := [y] + t;
    forall a, b | 0 <= a < b < |r|
      ensures Before(keys, r[a], r[b])
    {
      if a > 0 {
        assert r[a] == t[a - 1] && r[b] == t[b - 1];
      } else {
        assert r[b] == t[b - 1];
      }
    }
  }

  /** The positions `0 .. n-1` in the order `OrderBy` puts them. */
  function OrderPositions(keys: seq<real>, n: nat): (r: seq<nat>)
    requires n <= |keys|
    ensures |r| == n
    ensures forall i: nat :: i in r <==> i < n
  {
    if n == 0 then []
    else
      var x: nat := n - 1;
      var s := OrderPositions(keys, x);
      var r := Insert(keys, x, s);
      forall i: nat
        ensures i in r <==> i < n
      {
        assert i in r <==> i in multiset(r);
        assert i in s <==> i in multiset(s);
      }
      assert |r| == |multiset(r)|;
      r
  }

  lemma {:induction false} OrderPositionsSorted(keys: seq<real>, n: nat)
    requires n <= |keys|
    ensures SortedBy(keys, OrderPositions(keys, n))
  {
    if n > 0 {
      var x: nat := n - 1;
      var s := OrderPositions(keys, x);
      OrderPositionsSorted(keys, x);
      assert x !in s;
      InsertSorted(keys, x, s);
      assert OrderPositions(keys, n) == Insert(keys, x, s);
    }
  }

  /**
   * Two sequences sorted by `Before` with the same elements are equal, so
   * `OrderPositions` is the one order any stable sort by key produces.
   */
  lemma {:induction false} SortedUnique(keys: seq<real>, a: seq<nat>, b: seq<nat>)
    requires SortedBy(keys, a) && SortedBy(keys, b)
    requires forall i: nat :: i in a <==> i in b
    ensures a == b
    decreases |a|
  {
    SameEmptiness(a, b);
    if a != [] {
      assert a[0] in a && b[0] in b;
      var m :| 0 <= m < |b| && b[m] == a[0];
      var n :| 0 <= n < |a| && a[n] == b[0];
      assert a[0] == b[0];
      forall i: nat
        ensures i in a[1..] <==> i in b[1..]
      {
        if i in a[1..] {
          var k :| 1 <= k < |a| && a[k] == i;
          assert Before(keys, a[0], i);
          assert i in b;
          assert i != b[0];
        }
        if i in b[1..] {
          var k :| 1 <= k < |b| && b[k] == i;
          assert Before(keys, b[0], i);
          assert i in a;
          assert i != a[0];
        }
      }
      SortedUnique(keys, a[1..], b[1..]);
      assert a == [a[0]] + a[1..] && b == [b[0]] + b[1..];
    }
  }

  lemma SameEmptiness(a: seq<nat>, b: seq<nat>)
    requires forall i: nat :: i in a <==> i in b
    ensures a == [] <==> b == []
  {
    if a != [] {
      assert a[0] in a;
    }
    if b != [] {
      assert b[0] in b;
    }
  }

  function Min(a: nat, b: nat): nat {
    if a < b then a else b
  }

  /** The distance of each body view model from the point, by position. */
  function Keys<B>(bodyVMs: seq<B>, distance: B -> real): (keys: seq<real>)
    ensures |keys| == |bodyVMs| && forall i :: 0 <= i < |bodyVMs| ==> keys[i] == distance(bodyVMs[i])
  {
    seq(|bodyVMs|, i requires 0 <= i < |bodyVMs| => distance(bodyVMs[i]))
  }

  /** The positions `ComputeByDistance` picks: the first ten of the stable order. */
  function NearestPositions(keys: seq<real>): (r: seq<nat>)
    ensures |r| == Min(Shown, |keys|)
    ensures SortedBy(keys, r)
    ensures forall j :: 0 <= j < |keys| && j !in r ==> forall k :: 0 <= k < |r| ==> Before(keys, r[k], j)
  {
    var order := OrderPositions(keys, |keys|);
    OrderPositionsSorted(keys, |keys|);
    var r := order[..Min(Shown, |keys|)];
    forall j | 0 <= j < |keys| && j !in r
      ensures forall k :: 0 <= k < |r| ==> Before(keys, r[k], j)
    {
      assert j in order;
      var m :| 0 <= m < |order| && order[m] == j;
      assert m >= |r|;
    }
    r
  }

  /**
   * `ComputeByDistance`: the body view models ordered by distance from the
   * mouse, ties kept in list order, and cut to the first ten.
   */
  function ComputeByDistance<B>(bodyVMs: seq<B>, distance: B -> real): (r: seq<B>)
    ensures |r| == Min(Shown, |bodyVMs|)
    ensures forall k :: 0 <= k < |r| ==> r[k] in bodyVMs
    ensures forall a, b :: 0 <= a < b < |r| ==> distance(r[a]) <= distance(r[b])
  {
    var keys := Keys(bodyVMs, distance);
    var picked := NearestPositions(keys);
    seq(|picked|, k requires 0 <= k < |picked| => bodyVMs[picked[k]])
  }

  /**
   * The ten are the nearest: every body view model left out is at least as
   * far as every one shown, and no position is shown twice.
   */
  lemma NearestAreShown<B>(bodyVMs: seq<B>, distance: B -> real)
    ensures var keys := Keys(bodyVMs, distance);
      var picked := NearestPositions(keys);
      && ComputeByDistance(bodyVMs, distance) == seq(|picked|, k requires 0 <= k < |picked| => bodyVMs[picked[k]])
      && (forall a, b :: 0 <= a < b < |picked| ==> picked[a] != picked[b])
      && (forall j, k :: 0 <= j < |bodyVMs| && j !in picked && 0 <= k < |picked| ==>
            distance(bodyVMs[picked[k]]) <= distance(bodyVMs[j]))
  {
  }

  /** A point in panel pixels. */
  datatype Point = Point(x: real, y: real)

  /** The part of the view model these operations touch. */
  datatype RenderState<B> = RenderState(bodyVMs: seq<B>, mousePosition: Option<Point>, byDistance: seq<B>)

  /** The constructor: a view model per body, no mouse position, nothing listed by distance. */
  function NewRenderState<B>(bodies: seq<B>): (s: RenderState<B>)
    ensures s.bodyVMs == bodies && s.mousePosition == None && s.byDistance == []
  {
    RenderState(bodies, None, [])
  }

  /** `RefreshByDistance`: cleared without a mouse position, otherwise recomputed. */
  function RefreshByDistance<B(==)>(s: RenderState<B>, distance: (B, Point) -> real): (r: RenderState<B>)
    ensures r.bodyVMs == s.bodyVMs && r.mousePosition == s.mousePosition
    ensures s.mousePosition == None ==> r.byDistance == []
    ensures UpToDate(r, distance)
  {
    match s.mousePosition
    case None => s.(byDistance := [])
    case Some(m) => s.(byDistance := ComputeByDistance(s.bodyVMs, b => distance(b, m)))
  }

  /** `BodyVMsByDistance` is what `RefreshByDistance` would set it to now. */
  predicate UpToDate<B(==)>(s: RenderState<B>, distance: (B, Point) -> real) {
    s.byDistance == match s.mousePosition
      case None => []
      case Some(m) => ComputeByDistance(s.bodyVMs, b => distance(b, m))
  }

  /** `SetMousePosition`: an unchanged position does nothing; a new one is stored and the list refreshed. */
  function SetMousePosition<B(==)>(s: RenderState<B>, value: Option<Point>, distance: (B, Point) -> real): (r: RenderState<B>)
    ensures value == s.mousePosition ==> r == s
    ensures r.mousePosition == value && r.bodyVMs == s.bodyVMs
    ensures value != s.mousePosition ==> UpToDate(r, distance)
  {
    if s.mousePosition == value then s
    else RefreshByDistance(s.(mousePosition := value), distance)
  }

  /** An up-to-date state stays up to date whatever position is set. */
  lemma SetMousePositionKeepsUpToDate<B>(s: RenderState<B>, value: Option<Point>, distance: (B, Point) -> real)
    requires UpToDate(s, distance)
    ensures UpToDate(SetMousePosition(s, value, distance), distance)
  {
  }

  /**
   * `RefreshSim`: walk `BodyVMs` from the back and remove each view model
   * whose body no longer exists, then refresh the list by distance.
   */
  method RefreshSim<B(==)>(s: RenderState<B>, exists_: B -> bool, distance: (B, Point) -> real) returns (r: RenderState<B>)
    ensures r.bodyVMs == Filter(s.bodyVMs, exists_)
    ensures forall b :: b in r.bodyVMs <==> b in s.bodyVMs && exists_(b)
    ensures r.mousePosition == s.mousePosition && UpToDate(r, distance)
  {
    var kept := RemoveRejectedBackward(s.bodyVMs, exists_);
    r := RefreshByDistance(s.(bodyVMs := kept), distance);
  }
}
