/**
 * Merging of overlapping bodies after a step (`Simulation.CombineOverlappingBodies`,
 * `CombineBodies` and the vector `WeightedAverage`). Bodies are identified by
 * their index in the body list; the overlap test is a parameter.
 */
module Merging {
  import opened Outcomes
  import opened Numbers
  import opened Vectors
  import opened Bodies
  import opened Lists
  import BodyColors

  // ----- Weighted average -----

  /** A record seen by `WeightedAverage`: its value and its weight. */
  datatype Weighted = Weighted(value: Vec3, weight: real)

  function WeightSum(records: seq<Weighted>): real {
    if records == [] then 0.0 else records[0].weight + WeightSum(records[1..])
  }

  function ValueSum(records: seq<Weighted>): Vec3 {
    if records == [] then Zero else Add(Scale(records[0].weight, records[0].value), ValueSum(records[1..]))
  }

  /**
   * `WeightedAverage` over vectors: throws on an empty input, returns the
   * single value exactly for one record (whatever its weight), and otherwise
   * divides the weighted sum by the total weight, throwing when that is zero.
   */
  function WeightedAverage(records: seq<Weighted>): (r: Result<Vec3>)
    ensures records == [] <==> r == Err(ArgumentException)
    ensures |records| == 1 ==> r == Ok(records[0].value)
    ensures |records| >= 2 ==> (r.Err? <==> WeightSum(records) == 0.0)
    ensures |records| >= 2 && r.Ok? ==> Scale(WeightSum(records), r.value) == ValueSum(records)
    ensures r.Err? ==> r.error == ArgumentException || r.error == DivideByZero
  {
    if |records| == 0 then Err(ArgumentException)
    else if |records| == 1 then Ok(records[0].value)
    else
      var total := WeightSum(records);
      if total != 0.0 then Ok(Scale(1.0 / total, ValueSum(records)))
      else Err(DivideByZero)
  }

  lemma {:induction false} ValueSumOfEqualValues(records: seq<Weighted>, v: Vec3)
    requires forall k :: 0 <= k < |records| ==> records[k].value == v
    ensures ValueSum(records) == Scale(WeightSum(records), v)
  {
    if records != [] {
      ValueSumOfEqualValues(records[1..], v);
    }
  }

  /** Averaging records that all carry the same value gives back that value. */
  lemma AverageOfEqualValues(records: seq<Weighted>, v: Vec3)
    requires records != [] && forall k :: 0 <= k < |records| ==> records[k].value == v
    requires |records| == 1 || WeightSum(records) != 0.0
    ensures WeightedAverage(records) == Ok(v)
  {
    if |records| >= 2 {
      ValueSumOfEqualValues(records, v);
      var w := WeightSum(records);
      assert (1.0 / w) * (w * v.x) == v.x && (1.0 / w) * (w * v.y) == v.y && (1.0 / w) * (w * v.z) == v.z;
      assert Scale(1.0 / w, Scale(w, v)) == v;
      assert WeightedAverage(records) == Ok(Scale(1.0 / w, ValueSum(records)));
    }
  }

  // ----- Weighted average of bytes -----

  /** A record seen by the byte overload of `WeightedAverage`. */
  datatype ByteWeighted = ByteWeighted(value: Byte, weight: real)

  function ByteWeightSum(records: seq<ByteWeighted>): real {
    if records == [] then 0.0 else records[0].weight + ByteWeightSum(records[1..])
  }

  function ByteValueSum(records: seq<ByteWeighted>): real {
    if records == [] then 0.0 else records[0].weight * records[0].value as real + ByteValueSum(records[1..])
  }

  /** The values `Convert.ToByte` accepts: those that round to 0..255. */
  predicate InByteRange(x: real) {
    -0.5 <= x < 255.5
  }

  /** `b` is a byte nearest to `q`, and the even one when `q` lies halfway between two bytes. */
  predicate NearestByte(b: Byte, q: real) {
    && b as real - 0.5 <= q <= b as real + 0.5
    && (q - q.Floor as real == 0.5 ==> b % 2 == 0)
  }

  /**
   * The byte overload of `WeightedAverage`: the same cases as the vector one,
   * but the quotient goes through `Convert.ToByte`, which throws
   * `OverflowException` unless it rounds to a byte. The byte returned is
   * the one nearest the exact weighted average, the even one on a tie.
   */
  function ByteWeightedAverage(records: seq<ByteWeighted>): (r: Result<Byte>)
    ensures records == [] <==> r == Err(ArgumentException)
    ensures |records| == 1 ==> r == Ok(records[0].value)
    ensures |records| >= 2 ==> (r == Err(DivideByZero) <==> ByteWeightSum(records) == 0.0)
    ensures |records| >= 2 && ByteWeightSum(records) != 0.0 ==>
      (r == Err(Overflow) <==> !InByteRange(ByteValueSum(records) / ByteWeightSum(records)))
    ensures |records| >= 2 && r.Ok? ==> NearestByte(r.value, ByteValueSum(records) / ByteWeightSum(records))
  {
    if |records| == 0 then Err(ArgumentException)
    else if |records| == 1 then Ok(records[0].value)
    else
      var total := ByteWeightSum(records);
      if total != 0.0 then BodyColors.ToByte(ByteValueSum(records) / total) else Err(DivideByZero)
  }

  /** With non-negative weights the weighted sum of bytes lies between 0 and 255 times the total weight. */
  lemma {:induction false} ByteValueSumBounds(records: seq<ByteWeighted>)
    requires forall k :: 0 <= k < |records| ==> records[k].weight >= 0.0
    ensures 0.0 <= ByteValueSum(records) <= 255.0 * ByteWeightSum(records)
  {
    if records != [] {
      ByteValueSumBounds(records[1..]);
      var w, v := records[0].weight, records[0].value as real;
      assert 0.0 <= w * v <= 255.0 * w;
      assert ByteValueSum(records) == w * v + ByteValueSum(records[1..]);
      assert ByteWeightSum(records) == w + ByteWeightSum(records[1..]);
    }
  }

  /** Non-negative weights with a non-zero total never overflow a byte. */
  lemma NonNegativeWeightsFit(records: seq<ByteWeighted>)
    requires forall k :: 0 <= k < |records| ==> records[k].weight >= 0.0
    requires ByteWeightSum(records) != 0.0
    ensures InByteRange(ByteValueSum(records) / ByteWeightSum(records))
  {
    ByteValueSumBounds(records);
    NonNegativeWeightSum(records);
    QuotientBounds(ByteValueSum(records), ByteWeightSum(records));
  }

  lemma {:induction false} NonNegativeWeightSum(records: seq<ByteWeighted>)
    requires forall k :: 0 <= k < |records| ==> records[k].weight >= 0.0
    ensures ByteWeightSum(records) >= 0.0
  {
    if records != [] {
      NonNegativeWeightSum(records[1..]);
    }
  }

  lemma QuotientBounds(v: real, w: real)
    requires w > 0.0 && 0.0 <= v <= 255.0 * w
    ensures 0.0 <= v / w <= 255.0
  {
    assert v / w * w == v;
  }

  /**
   * Weights of mixed signs can push the average out of range: weights 2 and
   * -1 on the bytes 255 and 0 average to 510, which `Convert.ToByte` refuses.
   */
  lemma MixedWeightsOverflow()
    ensures ByteWeightedAverage([ByteWeighted(255, 2.0), ByteWeighted(0, -1.0)]) == Err(Overflow)
  {
    var records := [ByteWeighted(255, 2.0), ByteWeighted(0, -1.0)];
    assert records[1..][1..] == [];
    assert ByteWeightSum(records) == 1.0;
    assert ByteValueSum(records) == 510.0;
  }

  // ----- Recording overlapping pairs -----

  /** The overlap relation between two distinct bodies, always tested as (lower index, higher index). */
  predicate Touch(bodies: seq<Body>, overlaps: (Body, Body) -> bool, x: nat, y: nat) {
    x < |bodies| && y < |bodies| && x != y
    && (if x < y then overlaps(bodies[x], bodies[y]) else overlaps(bodies[y], bodies[x]))
  }

  /**
   * The `overlapping` dictionary: `adj` maps a body to the bodies recorded as
   * touching it, and `order` lists the keys in insertion order. A .NET
   * dictionary enumerates in that order only while no key has been removed
   * before: the source keeps one dictionary across steps, and a later addition
   * reuses the slot of a removed key, so from the second merging step on the
   * source's enumeration order can differ from `order`.
   */
  datatype Dict = Dict(order: seq<nat>, adj: map<nat, seq<nat>>)

  predicate Distinct(s: seq<nat>) {
    forall a, b :: 0 <= a < b < |s| ==> s[a] != s[b]
  }

  ghost predicate WellFormed(d: Dict) {
    && (forall x :: x in d.adj <==> x in d.order)
    && Distinct(d.order)
  }

  function AddKey(d: Dict, x: nat): (r: Dict)
    requires WellFormed(d)
    ensures WellFormed(r) && x in r.adj
    ensures r.adj.Keys == d.adj.Keys + {x}
    ensures forall k :: k in d.adj ==> r.adj[k] == d.adj[k]
    ensures x !in d.adj ==> r.adj[x] == []
  {
    if x in d.adj then d else Dict(d.order + [x], d.adj[x := []])
  }

  /** `overlapping[x].Add(y)`. */
  function Append(d: Dict, x: nat, y: nat): (r: Dict)
    requires WellFormed(d) && x in d.adj
    ensures WellFormed(r)
  {
    Dict(d.order, d.adj[x := d.adj[x] + [y]])
  }

  /** One overlapping pair `i < j`: both keys added if missing, then each recorded as touching the other. */
  function RecordPair(d: Dict, i: nat, j: nat): (r: Dict)
    requires WellFormed(d) && i != j
    ensures WellFormed(r)
    ensures r.adj.Keys == d.adj.Keys + {i, j}
    ensures forall x, y :: x in r.adj ==> (y in r.adj[x] <==> (x in d.adj && y in d.adj[x]) || (x == i && y == j) || (x == j && y == i))
  {
    var d1 := AddKey(AddKey(d, i), j);
    Append(Append(d1, i, j), j, i)
  }

  /** Pair `{x, y}` comes before pair `(i, j)` in the order of the nested loops. */
  predicate Visited(x: nat, y: nat, i: nat, j: nat) {
    var lo := if x < y then x else y;
    var hi := if x < y then y else x;
    lo < i || (lo == i && hi < j)
  }

  /**
   * The dictionary records every touching pair that has been visited, in both
   * directions, and nothing else; its keys are exactly the bodies of those pairs.
   */
  ghost predicate RecordsUpTo(d: Dict, bodies: seq<Body>, overlaps: (Body, Body) -> bool, i: nat, j: nat) {
    && WellFormed(d)
    && (forall x, y :: x in d.adj ==> (y in d.adj[x] <==> Touch(bodies, overlaps, x, y) && Visited(x, y, i, j)))
    && (forall x, y :: Touch(bodies, overlaps, x, y) && Visited(x, y, i, j) ==> x in d.adj)
    && (forall x :: x in d.adj ==> exists y :: Touch(bodies, overlaps, x, y) && Visited(x, y, i, j))
  }

  lemma RecordsNothing(bodies: seq<Body>, overlaps: (Body, Body) -> bool)
    ensures RecordsUpTo(Dict([], map[]), bodies, overlaps, 0, 0)
  {
  }

  lemma StartRow(d: Dict, bodies: seq<Body>, overlaps: (Body, Body) -> bool, i: nat)
    requires RecordsUpTo(d, bodies, overlaps, i, 0)
    ensures RecordsUpTo(d, bodies, overlaps, i, i + 1)
  {
    forall x, y | Touch(bodies, overlaps, x, y)
      ensures Visited(x, y, i, 0) <==> Visited(x, y, i, i + 1)
    {
    }
  }

  lemma EndRow(d: Dict, bodies: seq<Body>, overlaps: (Body, Body) -> bool, i: nat)
    requires RecordsUpTo(d, bodies, overlaps, i, |bodies|)
    ensures RecordsUpTo(d, bodies, overlaps, i + 1, 0)
  {
    forall x, y | Touch(bodies, overlaps, x, y)
      ensures Visited(x, y, i, |bodies|) <==> Visited(x, y, i + 1, 0)
    {
    }
  }

  /** Visiting pair `(i, j)`: it is recorded exactly when the bodies overlap. */
  lemma VisitPair(d: Dict, bodies: seq<Body>, overlaps: (Body, Body) -> bool, i: nat, j: nat)
    requires i < j < |bodies| && RecordsUpTo(d, bodies, overlaps, i, j)
    ensures var d' := if overlaps(bodies[i], bodies[j]) then RecordPair(d, i, j) else d;
      RecordsUpTo(d', bodies, overlaps, i, j + 1)
  {
    if overlaps(bodies[i], bodies[j]) {
      VisitOverlapping(d, bodies, overlaps, i, j);
    } else {
      forall x, y | Touch(bodies, overlaps, x, y)
        ensures Visited(x, y, i, j + 1) <==> Visited(x, y, i, j)
      {
      }
      forall x | x in d.adj
        ensures exists y :: Touch(bodies, overlaps, x, y) && Visited(x, y, i, j + 1)
      {
        var y :| Touch(bodies, overlaps, x, y) && Visited(x, y, i, j);
        assert Visited(x, y, i, j + 1);
      }
    }
  }

  lemma VisitOverlapping(d: Dict, bodies: seq<Body>, overlaps: (Body, Body) -> bool, i: nat, j: nat)
    requires i < j < |bodies| && RecordsUpTo(d, bodies, overlaps, i, j)
    requires overlaps(bodies[i], bodies[j])
    ensures RecordsUpTo(RecordPair(d, i, j), bodies, overlaps, i, j + 1)
  {
    VisitedAfterPair(i, j);
    PairLists(d, bodies, overlaps, i, j);
    PairKeys(d, bodies, overlaps, i, j);
    PairWitnesses(d, bodies, overlaps, i, j);
  }

  /** Moving past pair `(i, j)` adds exactly that pair, in either orientation, to the visited ones. */
  lemma VisitedAfterPair(i: nat, j: nat)
    requires i < j
    ensures forall x, y :: Visited(x, y, i, j + 1) <==> Visited(x, y, i, j) || (x == i && y == j) || (x == j && y == i)
  {
    forall x: nat, y: nat
      ensures Visited(x, y, i, j + 1) <==> Visited(x, y, i, j) || (x == i && y == j) || (x == j && y == i)
    {
    }
  }

  lemma PairLists(d: Dict, bodies: seq<Body>, overlaps: (Body, Body) -> bool, i: nat, j: nat)
    requires i < j < |bodies| && WellFormed(d) && overlaps(bodies[i], bodies[j])
    requires forall x, y :: x in d.adj ==> (y in d.adj[x] <==> Touch(bodies, overlaps, x, y) && Visited(x, y, i, j))
    requires forall x, y :: Touch(bodies, overlaps, x, y) && Visited(x, y, i, j) ==> x in d.adj
    requires forall x, y :: Visited(x, y, i, j + 1) <==> Visited(x, y, i, j) || (x == i && y == j) || (x == j && y == i)
    ensures var d' := RecordPair(d, i, j);
      forall x, y :: x in d'.adj ==> (y in d'.adj[x] <==> Touch(bodies, overlaps, x, y) && Visited(x, y, i, j + 1))
  {
    var d' := RecordPair(d, i, j);
    assert Touch(bodies, overlaps, i, j) && Touch(bodies, overlaps, j, i);
    forall x, y | x in d'.adj
      ensures y in d'.adj[x] <==> Touch(bodies, overlaps, x, y) && Visited(x, y, i, j + 1)
    {
      if x !in d.adj {
        assert !(Touch(bodies, overlaps, x, y) && Visited(x, y, i, j));
      }
    }
  }

  lemma PairKeys(d: Dict, bodies: seq<Body>, overlaps: (Body, Body) -> bool, i: nat, j: nat)
    requires i < j < |bodies| && WellFormed(d)
    requires forall x, y :: Touch(bodies, overlaps, x, y) && Visited(x, y, i, j) ==> x in d.adj
    requires forall x, y :: Visited(x, y, i, j + 1) <==> Visited(x, y, i, j) || (x == i && y == j) || (x == j && y == i)
    ensures var d' := RecordPair(d, i, j);
      forall x, y :: Touch(bodies, overlaps, x, y) && Visited(x, y, i, j + 1) ==> x in d'.adj
  {
  }

  lemma PairWitnesses(d: Dict, bodies: seq<Body>, overlaps: (Body, Body) -> bool, i: nat, j: nat)
    requires i < j < |bodies| && WellFormed(d) && overlaps(bodies[i], bodies[j])
    requires forall x :: x in d.adj ==> exists y :: Touch(bodies, overlaps, x, y) && Visited(x, y, i, j)
    requires forall x, y :: Visited(x, y, i, j + 1) <==> Visited(x, y, i, j) || (x == i && y == j) || (x == j && y == i)
    ensures var d' := RecordPair(d, i, j);
      forall x :: x in d'.adj ==> exists y :: Touch(bodies, overlaps, x, y) && Visited(x, y, i, j + 1)
  {
    var d' := RecordPair(d, i, j);
    forall x | x in d'.adj
      ensures exists y :: Touch(bodies, overlaps, x, y) && Visited(x, y, i, j + 1)
    {
      if x == i {
        assert Touch(bodies, overlaps, x, j) && Visited(x, j, i, j + 1);
      } else if x == j {
        assert Touch(bodies, overlaps, x, i) && Visited(x, i, i, j + 1);
      } else {
        var y :| Touch(bodies, overlaps, x, y) && Visited(x, y, i, j);
        assert Visited(x, y, i, j + 1);
      }
    }
  }

  /**
   * The first loop of `CombineOverlappingBodies`: every pair `i < j` of
   * overlapping bodies is recorded in both directions. Afterwards the keys are
   * exactly the bodies that touch some other body, and each key's list holds
   * exactly the bodies touching it.
   */
  method RecordOverlaps(bodies: seq<Body>, overlaps: (Body, Body) -> bool) returns (d: Dict)
    ensures WellFormed(d)
    ensures forall x, y :: x in d.adj ==> (y in d.adj[x] <==> Touch(bodies, overlaps, x, y))
    ensures forall x :: x in d.adj <==> exists y :: Touch(bodies, overlaps, x, y)
  {
    var n := |bodies|;
    d := Dict([], map[]);
    RecordsNothing(bodies, overlaps);
    for i := 0 to n
      invariant RecordsUpTo(d, bodies, overlaps, i, 0)
    {
      StartRow(d, bodies, overlaps, i);
      for j := i + 1 to n
        invariant RecordsUpTo(d, bodies, overlaps, i, j)
      {
        VisitPair(d, bodies, overlaps, i, j);
        if overlaps(bodies[i], bodies[j]) {
          d := RecordPair(d, i, j);
        }
      }
      EndRow(d, bodies, overlaps, i);
    }
    forall x, y | Touch(bodies, overlaps, x, y)
      ensures Visited(x, y, n, 0)
    {
    }
  }

  // ----- Grouping: depth-first search over the dictionary -----

  type Graph = map<nat, seq<nat>>

  /** `m'` is `m` with some keys removed and the rest untouched. */
  ghost predicate Shrinks(m: Graph, m': Graph) {
    m'.Keys <= m.Keys && forall k :: k in m' ==> m'[k] == m[k]
  }

  /** `added` lists, without repetition, exactly the keys of `m` missing from `m'`. */
  ghost predicate RemovedExactly(m: Graph, m': Graph, added: seq<nat>) {
    Distinct(added) && forall x :: x in added <==> x in m && x !in m'
  }

  /** Every neighbour of every added body has been removed as well. */
  ghost predicate Finished(m: Graph, m': Graph, added: seq<nat>) {
    forall x, y :: x in added && x in m && y in m[x] ==> y !in m'
  }

  /** Each added body is one of `roots` or a neighbour of a body added before it. */
  ghost predicate Linked(m: Graph, added: seq<nat>, roots: seq<nat>) {
    forall t :: 0 <= t < |added| ==>
      added[t] in roots || exists u :: 0 <= u < t && added[u] in m && added[t] in m[added[u]]
  }

  lemma SubsetCardinality<K>(a: set<K>, b: set<K>)
    requires a <= b
    ensures |a| <= |b|
    ensures a < b ==> |a| < |b|
  {
    if a != b {
      assert b - a != {} by {
        if b - a == {} {
          forall x | x in b
            ensures x in a
          {
            assert x !in b - a;
          }
        }
      }
      var x :| x in b - a;
      SubsetCardinality(a, b - {x});
    }
  }

  /**
   * The local function `Check` of `CombineOverlappingBodies`: if `b` is still
   * in the dictionary, remove it, add it to the group, and check every body it
   * touches. Returns the dictionary and the group afterwards.
   */
  function Check(m: Graph, b: nat, group: seq<nat>): (r: (Graph, seq<nat>))
    ensures Shrinks(m, r.0) && b !in r.0
    ensures |group| <= |r.1| && r.1[..|group|] == group
    ensures RemovedExactly(m, r.0, r.1[|group|..])
    ensures Finished(m, r.0, r.1[|group|..])
    ensures Linked(m, r.1[|group|..], [b])
    ensures b in m ==> |r.1| > |group| && r.1[|group|] == b
    ensures b !in m ==> r == (m, group)
    decreases |m.Keys|, 0, 0
  {
    if b in m then
      var touching := m[b];
      var m' := m - {b};
      SubsetCardinality(m'.Keys, m.Keys);
      var r := CheckAll(m', touching, group + [b]);
      CheckLemma(m, b, group, r);
      r
    else (m, group)
  }

  /** `foreach (var other in touching) Check(other);` */
  function CheckAll(m: Graph, list: seq<nat>, group: seq<nat>): (r: (Graph, seq<nat>))
    ensures Shrinks(m, r.0)
    ensures |group| <= |r.1| && r.1[..|group|] == group
    ensures RemovedExactly(m, r.0, r.1[|group|..])
    ensures Finished(m, r.0, r.1[|group|..])
    ensures Linked(m, r.1[|group|..], list)
    ensures forall y :: y in list ==> y !in r.0
    decreases |m.Keys|, 1, |list|
  {
    if list == [] then (m, group)
    else
      var r1 := Check(m, list[0], group);
      SubsetCardinality(r1.0.Keys, m.Keys);
      var r2 := CheckAll(r1.0, list[1..], r1.1);
      CheckAllLemma(m, list, group, r1, r2);
      r2
  }

  lemma CheckLemma(m: Graph, b: nat, group: seq<nat>, r: (Graph, seq<nat>))
    requires b in m
    requires var m' := m - {b};
      && Shrinks(m', r.0)
      && |group| + 1 <= |r.1| && r.1[..|group| + 1] == group + [b]
      && RemovedExactly(m', r.0, r.1[|group| + 1..])
      && Finished(m', r.0, r.1[|group| + 1..])
      && Linked(m', r.1[|group| + 1..], m[b])
      && (forall y :: y in m[b] ==> y !in r.0)
    ensures Shrinks(m, r.0) && b !in r.0
    ensures |group| <= |r.1| && r.1[..|group|] == group
    ensures RemovedExactly(m, r.0, r.1[|group|..])
    ensures Finished(m, r.0, r.1[|group|..])
    ensures Linked(m, r.1[|group|..], [b])
    ensures |r.1| > |group| && r.1[|group|] == b
  {
    var rest := r.1[|group| + 1..];
    assert r.1[..|group|] == (group + [b])[..|group|] == group;
    assert r.1[|group|..] == [b] + rest;
    RemovedAfterVisit(m, b, r.0, rest);
    FinishedAfterVisit(m, b, r.0, rest);
    LinkedAfterVisit(m, b, rest);
  }

  lemma RemovedAfterVisit(m: Graph, b: nat, m2: Graph, rest: seq<nat>)
    requires b in m && Shrinks(m - {b}, m2) && RemovedExactly(m - {b}, m2, rest)
    ensures RemovedExactly(m, m2, [b] + rest)
  {
    var added := [b] + rest;
    forall p, q | 0 <= p < q < |added|
      ensures added[p] != added[q]
    {
      if p == 0 {
        assert added[q] == rest[q - 1];
      } else {
        assert added[p] == rest[p - 1] && added[q] == rest[q - 1];
      }
    }
  }

  lemma FinishedAfterVisit(m: Graph, b: nat, m2: Graph, rest: seq<nat>)
    requires b in m && Shrinks(m - {b}, m2) && Finished(m - {b}, m2, rest)
    requires forall y :: y in m[b] ==> y !in m2
    requires forall x :: x in rest ==> x != b
    ensures Finished(m, m2, [b] + rest)
  {
    forall x, y | x in [b] + rest && x in m && y in m[x]
      ensures y !in m2
    {
      if x != b {
        assert x in rest && x in m - {b};
      }
    }
  }

  lemma LinkedAfterVisit(m: Graph, b: nat, rest: seq<nat>)
    requires b in m && Linked(m - {b}, rest, m[b])
    ensures Linked(m, [b] + rest, [b])
  {
    var m' := m - {b};
    var added := [b] + rest;
    forall t | 0 <= t < |added|
      ensures added[t] in [b] || exists u :: 0 <= u < t && added[u] in m && added[t] in m[added[u]]
    {
      if t > 0 {
        var x := rest[t - 1];
        assert added[t] == x;
        if x in m[b] {
          assert added[0] == b;
        } else {
          var u :| 0 <= u < t - 1 && rest[u] in m' && x in m'[rest[u]];
          assert added[u + 1] == rest[u];
        }
      }
    }
  }

  lemma CheckAllLemma(m: Graph, list: seq<nat>, group: seq<nat>, r1: (Graph, seq<nat>), r2: (Graph, seq<nat>))
    requires list != []
    requires Shrinks(m, r1.0) && list[0] !in r1.0
    requires |group| <= |r1.1| && r1.1[..|group|] == group
    requires RemovedExactly(m, r1.0, r1.1[|group|..])
    requires Finished(m, r1.0, r1.1[|group|..])
    requires Linked(m, r1.1[|group|..], [list[0]])
    requires Shrinks(r1.0, r2.0)
    requires |r1.1| <= |r2.1| && r2.1[..|r1.1|] == r1.1
    requires RemovedExactly(r1.0, r2.0, r2.1[|r1.1|..])
    requires Finished(r1.0, r2.0, r2.1[|r1.1|..])
    requires Linked(r1.0, r2.1[|r1.1|..], list[1..])
    requires forall y :: y in list[1..] ==> y !in r2.0
    ensures Shrinks(m, r2.0)
    ensures |group| <= |r2.1| && r2.1[..|group|] == group
    ensures RemovedExactly(m, r2.0, r2.1[|group|..])
    ensures Finished(m, r2.0, r2.1[|group|..])
    ensures Linked(m, r2.1[|group|..], list)
    ensures forall y :: y in list ==> y !in r2.0
  {
    var a1 := r1.1[|group|..];
    var a2 := r2.1[|r1.1|..];
    assert r2.1[..|group|] == r1.1[..|group|];
    assert r2.1[|group|..] == a1 + a2;
    RemovedAfterBoth(m, r1.0, r2.0, a1, a2);
    FinishedAfterBoth(m, r1.0, r2.0, a1, a2);
    LinkedAfterBoth(m, r1.0, a1, a2, list);
    assert forall y :: y in list ==> y == list[0] || y in list[1..];
  }

  lemma RemovedAfterBoth(m: Graph, m1: Graph, m2: Graph, a1: seq<nat>, a2: seq<nat>)
    requires Shrinks(m, m1) && Shrinks(m1, m2)
    requires RemovedExactly(m, m1, a1) && RemovedExactly(m1, m2, a2)
    ensures RemovedExactly(m, m2, a1 + a2)
  {
    var added := a1 + a2;
    forall p, q | 0 <= p < q < |added|
      ensures added[p] != added[q]
    {
      if q < |a1| {
        assert added[p] == a1[p] && added[q] == a1[q];
      } else if p >= |a1| {
        assert added[p] == a2[p - |a1|] && added[q] == a2[q - |a1|];
      } else {
        assert added[p] in a1 && added[q] in a2;
      }
    }
  }

  lemma FinishedAfterBoth(m: Graph, m1: Graph, m2: Graph, a1: seq<nat>, a2: seq<nat>)
    requires Shrinks(m, m1) && Shrinks(m1, m2)
    requires RemovedExactly(m1, m2, a2)
    requires Finished(m, m1, a1) && Finished(m1, m2, a2)
    ensures Finished(m, m2, a1 + a2)
  {
    forall x, y | x in a1 + a2 && x in m && y in m[x]
      ensures y !in m2
    {
      if x !in a1 {
        assert x in a2 && x in m1;
      }
    }
  }

  lemma LinkedAfterBoth(m: Graph, m1: Graph, a1: seq<nat>, a2: seq<nat>, list: seq<nat>)
    requires list != [] && Shrinks(m, m1)
    requires Linked(m, a1, [list[0]]) && Linked(m1, a2, list[1..])
    ensures Linked(m, a1 + a2, list)
  {
    var added := a1 + a2;
    forall t | 0 <= t < |added|
      ensures added[t] in list || exists u :: 0 <= u < t && added[u] in m && added[t] in m[added[u]]
    {
      if t < |a1| {
        assert added[t] == a1[t];
        if a1[t] !in [list[0]] {
          var u :| 0 <= u < t && a1[u] in m && a1[t] in m[a1[u]];
          assert added[u] == a1[u];
        }
      } else {
        var t2 := t - |a1|;
        assert added[t] == a2[t2];
        if a2[t2] !in list[1..] {
          var u :| 0 <= u < t2 && a2[u] in m1 && a2[t2] in m1[a2[u]];
          assert added[u + |a1|] == a2[u];
        }
      }
    }
  }

  // ----- Grouping loop -----

  /** Each body recorded as touching `x` has `x` recorded as touching it. */
  ghost predicate Symmetric(m: Graph) {
    forall x, y :: x in m && y in m[x] ==> y in m && x in m[y]
  }

  /** No member of `group` touches a body outside it. */
  ghost predicate Closed(m: Graph, group: seq<nat>) {
    forall x, y :: x in group && x in m && y in m[x] ==> y in group
  }

  /** All groups, one after the other. */
  function Flatten(groups: seq<seq<nat>>): seq<nat> {
    if groups == [] then [] else Flatten(groups[..|groups| - 1]) + groups[|groups| - 1]
  }

  lemma {:induction false} InFlatten(groups: seq<seq<nat>>, x: nat)
    ensures x in Flatten(groups) <==> exists i :: 0 <= i < |groups| && x in groups[i]
  {
    if groups != [] {
      var front, last := groups[..|groups| - 1], groups[|groups| - 1];
      InFlatten(front, x);
      assert Flatten(groups) == Flatten(front) + last;
      assert x in Flatten(groups) <==> x in Flatten(front) || x in last;
      if x in Flatten(front) {
        var i :| 0 <= i < |front| && x in front[i];
        assert groups[i] == front[i];
      }
      if exists i :: 0 <= i < |groups| && x in groups[i] {
        var i :| 0 <= i < |groups| && x in groups[i];
        if i < |front| {
          assert front[i] == groups[i];
        }
      }
    }
  }

  /**
   * `groups` are connected components of `m`: they do not share a body, none
   * is empty, none touches a body outside it, and every member is reached from
   * the group's first body through recorded contacts.
   */
  ghost predicate Components(m: Graph, groups: seq<seq<nat>>) {
    && Distinct(Flatten(groups))
    && forall i :: 0 <= i < |groups| ==> Component(m, groups[i])
  }

  /** One group: not empty, touching nothing outside it, every member reached from its first body. */
  ghost predicate Component(m: Graph, group: seq<nat>) {
    group != [] && Closed(m, group) && Linked(m, group, [group[0]])
  }

  /**
   * `overlapping.Keys.First()`, taken to be the earliest-inserted key still
   * present. Which key the dictionary really enumerates first also depends on
   * the slots freed by earlier steps; see `Dict`.
   */
  function FirstKey(order: seq<nat>, m: Graph): (r: nat)
    requires exists i :: 0 <= i < |order| && order[i] in m
    ensures r in m
    ensures exists i :: 0 <= i < |order| && order[i] == r && forall j :: 0 <= j < i ==> order[j] !in m
  {
    if order[0] in m then order[0]
    else
      var r := FirstKey(order[1..], m);
      assert forall i :: 0 < i < |order| ==> order[i] == order[1..][i - 1];
      r
  }

  lemma ShrinksTransitive(m: Graph, m1: Graph, m2: Graph)
    requires Shrinks(m, m1) && Shrinks(m1, m2)
    ensures Shrinks(m, m2)
  {
  }

  lemma LinkedInLarger(m: Graph, m1: Graph, added: seq<nat>, roots: seq<nat>)
    requires Shrinks(m, m1) && Linked(m1, added, roots)
    ensures Linked(m, added, roots)
  {
    forall t | 0 <= t < |added| && added[t] !in roots
      ensures exists u :: 0 <= u < t && added[u] in m && added[t] in m[added[u]]
    {
      var u :| 0 <= u < t && added[u] in m1 && added[t] in m1[added[u]];
      assert added[u] in m && added[t] in m[added[u]];
    }
  }

  /** A new group found by `Check` is closed: by symmetry it cannot touch an earlier group. */
  lemma NewGroupClosed(all: Graph, m: Graph, m': Graph, groups: seq<seq<nat>>, g: seq<nat>)
    requires Symmetric(all) && Shrinks(all, m) && Shrinks(m, m')
    requires RemovedExactly(all, m, Flatten(groups))
    requires forall i :: 0 <= i < |groups| ==> Closed(all, groups[i])
    requires RemovedExactly(m, m', g) && Finished(m, m', g)
    ensures Closed(all, g)
  {
    forall x, y | x in g && x in all && y in all[x]
      ensures y in g
    {
      assert x in m && m[x] == all[x];
      if y !in m {
        InFlatten(groups, y);
        var i :| 0 <= i < |groups| && y in groups[i];
        assert x in all[y];
        InFlatten(groups, x);
        assert false;
      }
    }
  }

  lemma GroupStep(d: Dict, m: Graph, groups: seq<seq<nat>>, first: nat, r: (Graph, seq<nat>))
    requires Symmetric(d.adj) && Shrinks(d.adj, m)
    requires RemovedExactly(d.adj, m, Flatten(groups))
    requires forall i :: 0 <= i < |groups| ==> Component(d.adj, groups[i])
    requires first in m && Shrinks(m, r.0) && first !in r.0
    requires RemovedExactly(m, r.0, r.1) && Finished(m, r.0, r.1) && Linked(m, r.1, [first])
    requires |r.1| > 0 && r.1[0] == first
    ensures Shrinks(d.adj, r.0)
    ensures RemovedExactly(d.adj, r.0, Flatten(groups + [r.1]))
    ensures forall i :: 0 <= i < |groups + [r.1]| ==> Component(d.adj, (groups + [r.1])[i])
  {
    var gs := groups + [r.1];
    assert gs[..|gs| - 1] == groups;
    ShrinksTransitive(d.adj, m, r.0);
    RemovedAfterBoth(d.adj, m, r.0, Flatten(groups), r.1);
    assert Component(d.adj, r.1) by {
      NewGroupClosed(d.adj, m, r.0, groups, r.1);
      LinkedInLarger(d.adj, m, r.1, [first]);
    }
    ComponentsExtend(d.adj, groups, r.1);
  }

  lemma ComponentsExtend(m: Graph, groups: seq<seq<nat>>, g: seq<nat>)
    requires forall i :: 0 <= i < |groups| ==> Component(m, groups[i])
    requires Component(m, g)
    ensures forall i :: 0 <= i < |groups + [g]| ==> Component(m, (groups + [g])[i])
  {
  }

  /**
   * The grouping loop of `CombineOverlappingBodies`: while the dictionary is
   * not empty, start a group at its first key and let `Check` remove and
   * collect everything reachable. The groups cover every key exactly once and
   * are the connected components of the recorded contacts.
   */
  method FormGroups(d: Dict) returns (groups: seq<seq<nat>>)
    requires WellFormed(d) && Symmetric(d.adj)
    ensures Components(d.adj, groups)
    ensures forall x :: x in Flatten(groups) <==> x in d.adj
    ensures d.adj == map[] <==> groups == []
  {
    var m := d.adj;
    groups := [];
    while |m| > 0
      invariant Shrinks(d.adj, m)
      invariant RemovedExactly(d.adj, m, Flatten(groups))
      invariant forall i :: 0 <= i < |groups| ==> Component(d.adj, groups[i])
      invariant d.adj == map[] ==> groups == []
      invariant groups == [] ==> m == d.adj
      decreases |m|
    {
      var k :| k in m;
      assert k in d.order;
      var ki :| 0 <= ki < |d.order| && d.order[ki] == k;
      var first := FirstKey(d.order, m);
      var r := Check(m, first, []);
      assert r.1[0..] == r.1;
      GroupStep(d, m, groups, first, r);
      SubsetCardinality(r.0.Keys, m.Keys);
      m := r.0;
      groups := groups + [r.1];
    }
    assert m == map[];
  }

  // ----- Combining one group -----

  /** The bodies of a group, in group order (the C# `List<Body>`). */
  function Members(bodies: seq<Body>, group: seq<nat>): (r: seq<Body>)
    requires forall t :: 0 <= t < |group| ==> group[t] < |bodies|
    ensures |r| == |group| && forall t :: 0 <= t < |group| ==> r[t] == bodies[group[t]]
  {
    seq(|group|, t requires 0 <= t < |group| => bodies[group[t]])
  }

  /** `group.Sum(b => b.Mass)`: every member counts, whether or not it still exists. */
  function GroupMass(members: seq<Body>): real {
    if members == [] then 0.0 else members[0].mass + GroupMass(members[1..])
  }

  function GroupVolume(members: seq<Body>): real {
    if members == [] then 0.0 else members[0].volume + GroupVolume(members[1..])
  }

  /** The weighted records `WeightedAverage` sees for positions and for velocities. */
  function PositionRecords(members: seq<Body>): (r: seq<Weighted>)
    ensures |r| == |members| && forall t :: 0 <= t < |members| ==> r[t] == Weighted(members[t].position, members[t].mass)
  {
    seq(|members|, t requires 0 <= t < |members| => Weighted(members[t].position, members[t].mass))
  }

  function VelocityRecords(members: seq<Body>): (r: seq<Weighted>)
    ensures |r| == |members| && forall t :: 0 <= t < |members| ==> r[t] == Weighted(members[t].velocity, members[t].mass)
  {
    seq(|members|, t requires 0 <= t < |members| => Weighted(members[t].velocity, members[t].mass))
  }

  /** The weights of a group's records add up to the group's mass. */
  lemma {:induction false} RecordWeights(members: seq<Body>)
    ensures WeightSum(PositionRecords(members)) == GroupMass(members)
    ensures WeightSum(VelocityRecords(members)) == GroupMass(members)
  {
    if members != [] {
      RecordWeights(members[1..]);
      assert PositionRecords(members)[1..] == PositionRecords(members[1..]);
      assert VelocityRecords(members)[1..] == VelocityRecords(members[1..]);
    }
  }

  /** A colour channel: `Color.R`, `Color.G` or `Color.B`. */
  datatype Channel = Red | Green | Blue

  function ChannelValue(c: BodyColors.BodyColor, ch: Channel): Byte {
    match ch
    case Red => c.r
    case Green => c.g
    case Blue => c.b
  }

  /** The records the byte `WeightedAverage` sees for one channel of a group. */
  function ChannelRecords(members: seq<Body>, ch: Channel): (r: seq<ByteWeighted>)
    ensures |r| == |members|
    ensures forall t :: 0 <= t < |members| ==> r[t] == ByteWeighted(ChannelValue(members[t].color, ch), members[t].mass)
  {
    seq(|members|, t requires 0 <= t < |members| => ByteWeighted(ChannelValue(members[t].color, ch), members[t].mass))
  }

  /** The mass-weighted sum of one channel over a group. */
  function ChannelSum(members: seq<Body>, ch: Channel): real {
    if members == [] then 0.0
    else members[0].mass * ChannelValue(members[0].color, ch) as real + ChannelSum(members[1..], ch)
  }

  /** A channel's records weigh the group's mass and sum to its weighted channel sum. */
  lemma {:induction false} ChannelRecordSums(members: seq<Body>, ch: Channel)
    ensures ByteWeightSum(ChannelRecords(members, ch)) == GroupMass(members)
    ensures ByteValueSum(ChannelRecords(members, ch)) == ChannelSum(members, ch)
  {
    if members != [] {
      ChannelRecordSums(members[1..], ch);
      assert ChannelRecords(members, ch)[1..] == ChannelRecords(members[1..], ch);
    }
  }

  /** The exact mass-weighted average of a channel rounds to a byte. */
  predicate ChannelFits(members: seq<Body>, ch: Channel) {
    GroupMass(members) != 0.0 ==> InByteRange(ChannelSum(members, ch) / GroupMass(members))
  }

  predicate ColorFits(members: seq<Body>) {
    ChannelFits(members, Red) && ChannelFits(members, Green) && ChannelFits(members, Blue)
  }

  /** `b` is what `Convert.ToByte` makes of the exact mass-weighted average of channel `ch`. */
  predicate ChannelNear(b: Byte, members: seq<Body>, ch: Channel)
    requires GroupMass(members) != 0.0
  {
    NearestByte(b, ChannelSum(members, ch) / GroupMass(members))
  }

  predicate ColorNear(c: BodyColors.BodyColor, members: seq<Body>)
    requires GroupMass(members) != 0.0
  {
    ChannelNear(c.r, members, Red) && ChannelNear(c.g, members, Green) && ChannelNear(c.b, members, Blue)
  }

  /**
   * Whether `CombineBodies` gets through a group: a single body always; a
   * larger group needs a non-zero total mass, or `WeightedAverage` throws
   * `DivideByZeroException`, and colour averages that round to bytes, or
   * `Convert.ToByte` throws `OverflowException`.
   */
  predicate Mergeable(members: seq<Body>) {
    |members| < 2 || (GroupMass(members) != 0.0 && ColorFits(members))
  }

  /** The exception a group that cannot be merged raises first. */
  function MergeError(members: seq<Body>): Exception {
    if GroupMass(members) == 0.0 then DivideByZero else Overflow
  }

  /**
   * `new(WeightedAverage(R), WeightedAverage(G), WeightedAverage(B))`: a
   * single body keeps its colour; otherwise each channel is the rounded
   * mass-weighted average, and the red channel throws first.
   */
  function AverageColor(members: seq<Body>): (r: Result<BodyColors.BodyColor>)
    requires members != []
    ensures |members| == 1 ==> r == Ok(members[0].color)
    ensures |members| >= 2 ==> (r.Err? <==> !Mergeable(members))
    ensures |members| >= 2 && r.Err? ==> r.error == MergeError(members)
    ensures |members| >= 2 && r.Ok? ==> GroupMass(members) != 0.0 && ColorNear(r.value, members)
  {
    ChannelRecordSums(members, Red);
    ChannelRecordSums(members, Green);
    ChannelRecordSums(members, Blue);
    var red := ByteWeightedAverage(ChannelRecords(members, Red));
    var green := ByteWeightedAverage(ChannelRecords(members, Green));
    var blue := ByteWeightedAverage(ChannelRecords(members, Blue));
    if red.Err? then Err(red.error)
    else if green.Err? then Err(green.error)
    else if blue.Err? then Err(blue.error)
    else Ok(BodyColors.BodyColor(red.value, green.value, blue.value))
  }

  lemma ChannelFitsWhenNonNegative(members: seq<Body>, ch: Channel)
    requires forall t :: 0 <= t < |members| ==> members[t].mass >= 0.0
    ensures ChannelFits(members, ch)
  {
    ChannelRecordSums(members, ch);
    if GroupMass(members) != 0.0 {
      NonNegativeWeightsFit(ChannelRecords(members, ch));
    }
  }

  /**
   * With non-negative masses the colour never overflows, so a group fails to
   * merge exactly when it has several members and no mass.
   */
  lemma NonNegativeMassesMerge(members: seq<Body>)
    requires forall t :: 0 <= t < |members| ==> members[t].mass >= 0.0
    ensures Mergeable(members) <==> |members| < 2 || GroupMass(members) != 0.0
  {
    ChannelFitsWhenNonNegative(members, Red);
    ChannelFitsWhenNonNegative(members, Green);
    ChannelFitsWhenNonNegative(members, Blue);
  }

  /** If every member exists, the group's mass is its live mass. */
  lemma {:induction false} GroupMassOfLiveMembers(members: seq<Body>)
    requires forall t :: 0 <= t < |members| ==> members[t].alive
    ensures GroupMass(members) == TotalMass(members)
  {
    if members != [] {
      GroupMassOfLiveMembers(members[1..]);
    }
  }

  function TotalLength(parts: seq<string>): nat {
    if parts == [] then 0 else |parts[0]| + TotalLength(parts[1..])
  }

  /** `string.Join(sep, parts)`. */
  function Join(sep: string, parts: seq<string>): (r: string)
    ensures parts == [] ==> r == ""
    ensures |parts| == 1 ==> r == parts[0]
    ensures parts != [] ==> |r| == TotalLength(parts) + |sep| * (|parts| - 1)
    ensures parts != [] ==> r[..|parts[0]|] == parts[0]
  {
    if parts == [] then ""
    else if |parts| == 1 then parts[0]
    else
      var r := parts[0] + sep + Join(sep, parts[1..]);
      assert r[..|parts[0]|] == parts[0];
      r
  }

  function Names(members: seq<Body>): (r: seq<string>)
    ensures |r| == |members| && forall t :: 0 <= t < |members| ==> r[t] == members[t].name
  {
    seq(|members|, t requires 0 <= t < |members| => members[t].name)
  }

  /**
   * `group.MaxBy(b => b.Mass)`: scanning in order, a later member replaces the
   * current maximum only when strictly heavier, so the first heaviest is kept.
   */
  function Heaviest(members: seq<Body>): (k: nat)
    requires members != []
    ensures k < |members|
    ensures forall t :: 0 <= t < |members| ==> members[t].mass <= members[k].mass
    ensures forall t :: 0 <= t < k ==> members[t].mass < members[k].mass
  {
    if |members| == 1 then 0
    else
      var front := members[..|members| - 1];
      var k := Heaviest(front);
      assert forall t :: 0 <= t < |front| ==> front[t] == members[t];
      if members[|members| - 1].mass > members[k].mass then |members| - 1 else k
  }

  /**
   * The kept member after `CombineBodies`: it keeps its identity, takes the
   * mass-weighted average position, velocity and colour, the joined names
   * and the summed mass and volume. Fails exactly when one of the
   * `WeightedAverage` calls throws, with the exception the first of them
   * raises.
   */
  function Merge(members: seq<Body>): (r: Result<Body>)
    requires members != []
    ensures r.Err? <==> !Mergeable(members)
    ensures r.Err? ==> r.error == MergeError(members)
    ensures r.Ok? ==> var kept := members[Heaviest(members)];
      && r.value.id == kept.id && r.value.alive == kept.alive
      && r.value.mass == GroupMass(members) && r.value.volume == GroupVolume(members)
      && r.value.name == Join(" + ", Names(members))
    ensures r.Ok? && |members| >= 2 ==>
      && GroupMass(members) != 0.0
      && Scale(r.value.mass, r.value.position) == ValueSum(PositionRecords(members))
      && Scale(r.value.mass, r.value.velocity) == ValueSum(VelocityRecords(members))
      && ColorNear(r.value.color, members)
  {
    RecordWeights(members);
    var kept := members[Heaviest(members)];
    var p := WeightedAverage(PositionRecords(members));
    var v := WeightedAverage(VelocityRecords(members));
    var c := AverageColor(members);
    // The velocity average has the same weights, so it fails exactly when the position average does.
    if p.Ok? && v.Ok? && c.Ok? then Ok(kept.(position := p.value, velocity := v.value, name := Join(" + ", Names(members)),
                  color := c.value, mass := GroupMass(members), volume := GroupVolume(members)))
    else if p.Err? then Err(p.error)
    else Err(c.error)
  }

  /** Masses 2 and -1 on a red and a black body merge to a red average of 510, which throws. */
  lemma MixedMassesOverflow(a: Body, b: Body)
    requires a.mass == 2.0 && b.mass == -1.0 && a.color.r == 255 && b.color.r == 0
    ensures Merge([a, b]) == Err(Overflow)
  {
    var members, tail := [a, b], [b];
    assert members[1..] == tail && tail[1..] == [];
    assert GroupMass(tail) == b.mass && ChannelSum(tail, Red) == 0.0;
    assert GroupMass(members) == a.mass + GroupMass(tail) == 1.0;
    assert ChannelValue(a.color, Red) == 255;
    assert ChannelSum(members, Red) == 2.0 * 255.0 + ChannelSum(tail, Red) == 510.0;
    assert ChannelSum(members, Red) / GroupMass(members) == 510.0;
    assert !ChannelFits(members, Red) && !Mergeable(members);
    assert MergeError(members) == Overflow;
  }

  /**
   * Two bodies of equal mass with red 0 and red 1 average to a red of 0.5,
   * halfway between two bytes, and the merged body takes the even one, 0.
   */
  lemma TieGoesToEven(a: Body, b: Body)
    requires a.mass == 1.0 && b.mass == 1.0 && a.color.r == 0 && b.color.r == 1
    ensures Merge([a, b]).Ok? && Merge([a, b]).value.color.r == 0
  {
    var members, tail := [a, b], [b];
    assert members[1..] == tail && tail[1..] == [];
    assert GroupMass(tail) == 1.0 && ChannelSum(tail, Red) == 1.0;
    assert GroupMass(members) == a.mass + GroupMass(tail) == 2.0;
    assert ChannelValue(a.color, Red) == 0;
    assert ChannelSum(members, Red) == 1.0 * 0.0 + ChannelSum(tail, Red) == 1.0;
    NonNegativeMassesMerge(members);
    var q := ChannelSum(members, Red) / GroupMass(members);
    assert q == 0.5 && q.Floor == 0;
    assert ChannelNear(Merge(members).value.color.r, members, Red);
  }

  /** A group of one is left exactly as it was. */
  lemma MergeSingle(b: Body)
    ensures Merge([b]) == Ok(b)
  {
    var single := [b];
    assert single[1..] == [];
    assert GroupMass(single) == single[0].mass + GroupMass(single[1..]) == b.mass;
    assert GroupVolume(single) == single[0].volume + GroupVolume(single[1..]) == b.volume;
  }

  /** `after` shows `group` combined: the kept member merged, every other member no longer existing. */
  ghost predicate CombinedGroup(before: seq<Body>, after: seq<Body>, group: seq<nat>)
    requires forall t :: 0 <= t < |group| ==> group[t] < |before|
  {
    group != [] ==>
      var members := Members(before, group);
      var k := Heaviest(members);
      && |after| == |before|
      && Merge(members).Ok? && after[group[k]] == Merge(members).value
      && forall t :: 0 <= t < |group| && t != k ==> after[group[t]] == before[group[t]].(alive := false)
  }

  /** The state of `CombineBodies` after the first `t` members. */
  ghost predicate CombinedUpTo(bodies: seq<Body>, group: seq<nat>, kept: nat, merged: Body, out: seq<Body>, t: nat)
    requires forall u :: 0 <= u < |group| ==> group[u] < |bodies|
    requires t <= |group|
  {
    && |out| == |bodies|
    && (forall u :: 0 <= u < t ==>
         out[group[u]] == if u == kept then merged else bodies[group[u]].(alive := false))
    && (forall u :: t <= u < |group| ==> out[group[u]] == bodies[group[u]])
    && (forall i :: 0 <= i < |bodies| && i !in group ==> out[i] == bodies[i])
    && TotalMass(out) == TotalMass(bodies) - TotalMass(Members(bodies, group)[..t]) + (if kept < t then LiveMass(merged) else 0.0)
  }

  lemma CombineStep(bodies: seq<Body>, group: seq<nat>, kept: nat, merged: Body, out: seq<Body>, t: nat)
    requires forall u :: 0 <= u < |group| ==> group[u] < |bodies|
    requires Distinct(group) && t < |group|
    requires CombinedUpTo(bodies, group, kept, merged, out, t)
    ensures var next := if t == kept then merged else bodies[group[t]].(alive := false);
      CombinedUpTo(bodies, group, kept, merged, out[group[t] := next], t + 1)
  {
    var members := Members(bodies, group);
    var next := if t == kept then merged else bodies[group[t]].(alive := false);
    var out' := out[group[t] := next];
    TotalMassUpdate(out, group[t], next);
    assert members[..t + 1] == members[..t] + [members[t]];
    TotalMassAppend(members[..t], [members[t]]);
    assert TotalMass([members[t]]) == LiveMass(members[t]);
    forall u | 0 <= u < |group| && u != t
      ensures out'[group[u]] == out[group[u]]
    {
    }
  }

  /**
   * `CombineBodies`: merge the group into its heaviest member and mark every
   * other member as no longer existing. Bodies outside the group are
   * untouched; when every member exists, the total mass of existing bodies is
   * conserved. The source marks the members before the kept one while it
   * walks the group, but when the merge throws those edits are lost with the
   * step, so the model merges first.
   */
  method CombineBodies(bodies: seq<Body>, group: seq<nat>) returns (r: Result<seq<Body>>)
    requires forall t :: 0 <= t < |group| ==> group[t] < |bodies|
    requires Distinct(group)
    ensures r.Err? <==> !Mergeable(Members(bodies, group))
    ensures r.Err? ==> r.error == MergeError(Members(bodies, group))
    ensures r.Ok? ==> |r.value| == |bodies| && CombinedGroup(bodies, r.value, group)
    ensures r.Ok? ==> forall i :: 0 <= i < |bodies| && i !in group ==> r.value[i] == bodies[i]
    ensures r.Ok? && (forall t :: 0 <= t < |group| ==> bodies[group[t]].alive) ==>
      TotalMass(r.value) == TotalMass(bodies)
  {
    if group == [] {
      assert Mergeable(Members(bodies, group));
      return Ok(bodies);
    }
    var members := Members(bodies, group);
    var merged := Merge(members);
    if merged.Err? {
      return Err(merged.error);
    }
    var out := MarkGroup(bodies, group, Heaviest(members), merged.value);
    CombineDone(bodies, group, Heaviest(members), merged.value, out);
    return Ok(out);
  }

  /** The `foreach` of `CombineBodies`: member `kept` becomes `merged`, every other member stops existing. */
  method MarkGroup(bodies: seq<Body>, group: seq<nat>, kept: nat, merged: Body) returns (out: seq<Body>)
    requires forall t :: 0 <= t < |group| ==> group[t] < |bodies|
    requires Distinct(group)
    ensures CombinedUpTo(bodies, group, kept, merged, out, |group|)
  {
    out := bodies;
    assert Members(bodies, group)[..0] == [];
    for t := 0 to |group|
      invariant CombinedUpTo(bodies, group, kept, merged, out, t)
    {
      CombineStep(bodies, group, kept, merged, out, t);
      out := out[group[t] := if t == kept then merged else bodies[group[t]].(alive := false)];
    }
  }

  lemma CombineDone(bodies: seq<Body>, group: seq<nat>, kept: nat, merged: Body, out: seq<Body>)
    requires forall t :: 0 <= t < |group| ==> group[t] < |bodies|
    requires group != [] && kept == Heaviest(Members(bodies, group))
    requires Merge(Members(bodies, group)) == Ok(merged)
    requires CombinedUpTo(bodies, group, kept, merged, out, |group|)
    ensures CombinedGroup(bodies, out, group)
    ensures (forall t :: 0 <= t < |group| ==> bodies[group[t]].alive) ==> TotalMass(out) == TotalMass(bodies)
  {
    var members := Members(bodies, group);
    assert members[..|group|] == members;
    if forall t :: 0 <= t < |group| ==> bodies[group[t]].alive {
      GroupMassOfLiveMembers(members);
      assert merged.alive;
    }
  }

  // ----- The whole merge -----

  /** Dropping bodies that no longer exist does not change the total live mass. */
  lemma {:induction false} TotalMassOfLive(s: seq<Body>)
    ensures TotalMass(Filter(s, Alive)) == TotalMass(s)
  {
    if s != [] {
      TotalMassOfLive(s[1..]);
      var rest := Filter(s[1..], Alive);
      if Alive(s[0]) {
        assert Filter(s, Alive) == [s[0]] + rest;
        TotalMassAppend([s[0]], rest);
        assert TotalMass([s[0]]) == LiveMass(s[0]);
      } else {
        assert Filter(s, Alive) == rest;
        assert LiveMass(s[0]) == 0.0;
      }
    }
  }

  lemma DistinctConcat(a: seq<nat>, b: seq<nat>)
    requires Distinct(a + b)
    ensures Distinct(a) && Distinct(b)
    ensures forall x :: x in a ==> x !in b
  {
    forall i, j | 0 <= i < |a| && 0 <= j < |b|
      ensures a[i] != b[j]
    {
      assert (a + b)[i] == a[i] && (a + b)[|a| + j] == b[j];
    }
    forall i, j | 0 <= i < j < |b|
      ensures b[i] != b[j]
    {
      assert (a + b)[|a| + i] == b[i] && (a + b)[|a| + j] == b[j];
    }
    forall i, j | 0 <= i < j < |a|
      ensures a[i] != a[j]
    {
      assert (a + b)[i] == a[i] && (a + b)[j] == a[j];
    }
  }

  /** Groups whose concatenation has no repetition are themselves free of repetition and pairwise disjoint. */
  lemma {:induction false} FlattenDisjoint(groups: seq<seq<nat>>)
    requires Distinct(Flatten(groups))
    ensures forall g :: 0 <= g < |groups| ==> Distinct(groups[g])
    ensures forall g, h, x :: 0 <= g < |groups| && 0 <= h < |groups| && g != h && x in groups[g] ==> x !in groups[h]
  {
    if groups != [] {
      var n := |groups| - 1;
      var front := groups[..n];
      var flat := Flatten(front);
      var all := Flatten(groups);
      assert all == flat + groups[n];
      DistinctConcat(flat, groups[n]);
      FlattenDisjoint(front);
      forall g, x | 0 <= g < n && x in groups[g]
        ensures x !in groups[n]
      {
        assert groups[g] == front[g];
        InFlatten(front, x);
      }
      forall g | 0 <= g < |groups|
        ensures Distinct(groups[g])
      {
        if g < n {
          assert groups[g] == front[g];
        }
      }
      forall g, h, x | 0 <= g < |groups| && 0 <= h < |groups| && g != h && x in groups[g]
        ensures x !in groups[h]
      {
        if g < n && h < n {
          assert groups[g] == front[g] && groups[h] == front[h];
        }
      }
    }
  }

  /** Every grouped index is a body: only bodies that touch another are keys. */
  lemma GroupedAreBodies(bodies: seq<Body>, overlaps: (Body, Body) -> bool, contacts: Dict, groups: seq<seq<nat>>)
    requires forall x :: x in contacts.adj <==> exists y :: Touch(bodies, overlaps, x, y)
    requires forall x :: x in Flatten(groups) <==> x in contacts.adj
    ensures forall g, t :: 0 <= g < |groups| && 0 <= t < |groups[g]| ==> groups[g][t] < |bodies|
  {
    forall g, t | 0 <= g < |groups| && 0 <= t < |groups[g]|
      ensures groups[g][t] < |bodies|
    {
      var x := groups[g][t];
      InFlatten(groups, x);
      var y :| Touch(bodies, overlaps, x, y);
    }
  }

  /** The recorded contacts are symmetric, since the overlap relation is. */
  lemma ContactsSymmetric(bodies: seq<Body>, overlaps: (Body, Body) -> bool, contacts: Dict)
    requires forall x, y :: x in contacts.adj ==> (y in contacts.adj[x] <==> Touch(bodies, overlaps, x, y))
    requires forall x :: x in contacts.adj <==> exists y :: Touch(bodies, overlaps, x, y)
    ensures Symmetric(contacts.adj)
  {
    forall x, y | x in contacts.adj && y in contacts.adj[x]
      ensures y in contacts.adj && x in contacts.adj[y]
    {
      assert Touch(bodies, overlaps, y, x);
    }
  }

  /** What combining the first `n` groups has done to the bodies. */
  ghost predicate CombinedGroups(bodies: seq<Body>, groups: seq<seq<nat>>, combined: seq<Body>, n: nat)
    requires n <= |groups|
    requires forall g, t :: 0 <= g < |groups| && 0 <= t < |groups[g]| ==> groups[g][t] < |bodies|
  {
    && |combined| == |bodies|
    && (forall g :: 0 <= g < n ==> CombinedGroup(bodies, combined, groups[g]))
    && (forall g :: 0 <= g < n ==> Mergeable(Members(bodies, groups[g])))
    && (forall i :: 0 <= i < |bodies| && (forall g :: 0 <= g < n ==> i !in groups[g]) ==> combined[i] == bodies[i])
    && ((forall i :: 0 <= i < |bodies| ==> bodies[i].alive) ==> TotalMass(combined) == TotalMass(bodies))
  }

  /** Combining group `n` neither sees nor disturbs the groups combined before it. */
  lemma CombineGroupStep(bodies: seq<Body>, groups: seq<seq<nat>>, combined: seq<Body>, n: nat, next: seq<Body>)
    requires n < |groups|
    requires forall g, t :: 0 <= g < |groups| && 0 <= t < |groups[g]| ==> groups[g][t] < |bodies|
    requires forall g, h, x :: 0 <= g < |groups| && 0 <= h < |groups| && g != h && x in groups[g] ==> x !in groups[h]
    requires CombinedGroups(bodies, groups, combined, n)
    requires |next| == |combined| && CombinedGroup(combined, next, groups[n])
    requires Mergeable(Members(combined, groups[n]))
    requires forall i :: 0 <= i < |combined| && i !in groups[n] ==> next[i] == combined[i]
    requires (forall t :: 0 <= t < |groups[n]| ==> combined[groups[n][t]].alive) ==> TotalMass(next) == TotalMass(combined)
    ensures Members(combined, groups[n]) == Members(bodies, groups[n])
    ensures CombinedGroups(bodies, groups, next, n + 1)
  {
    var group := groups[n];
    forall t | 0 <= t < |group|
      ensures combined[group[t]] == bodies[group[t]]
    {
      forall g | 0 <= g < n
        ensures group[t] !in groups[g]
      {
      }
    }
    assert Members(combined, group) == Members(bodies, group);
    forall g | 0 <= g < n
      ensures CombinedGroup(bodies, next, groups[g])
    {
      forall t | 0 <= t < |groups[g]|
        ensures next[groups[g][t]] == combined[groups[g][t]]
      {
      }
    }
  }

  /**
   * `CombineOverlappingBodies`: record every overlapping pair, return at once
   * when there is none, otherwise combine each connected group into its
   * heaviest member and finally drop the bodies that no longer exist, keeping
   * the order of the rest. Also returns the contacts, the groups and the
   * bodies before the final removal, about which the contract speaks.
   */
  method CombineOverlappingBodies(bodies: seq<Body>, overlaps: (Body, Body) -> bool)
    returns (r: Result<seq<Body>>, contacts: Dict, groups: seq<seq<nat>>, combined: seq<Body>)
    ensures WellFormed(contacts)
    ensures forall x, y :: x in contacts.adj ==> (y in contacts.adj[x] <==> Touch(bodies, overlaps, x, y))
    ensures forall x :: x in contacts.adj <==> exists y :: Touch(bodies, overlaps, x, y)
    ensures Components(contacts.adj, groups)
    ensures forall x :: x in Flatten(groups) <==> x in contacts.adj
    ensures forall g, t :: 0 <= g < |groups| && 0 <= t < |groups[g]| ==> groups[g][t] < |bodies|
    ensures contacts.adj == map[] ==> r == Ok(bodies) && groups == []
    ensures r.Ok? <==> forall g :: 0 <= g < |groups| ==> Mergeable(Members(bodies, groups[g]))
    ensures r.Err? ==> exists g :: (0 <= g < |groups| && !Mergeable(Members(bodies, groups[g]))
      && r.error == MergeError(Members(bodies, groups[g]))
      && forall h :: 0 <= h < g ==> Mergeable(Members(bodies, groups[h])))
    ensures r.Err? ==> r.error == DivideByZero || r.error == Overflow
    ensures r.Ok? ==> |combined| == |bodies|
    ensures r.Ok? ==> forall g :: 0 <= g < |groups| ==> CombinedGroup(bodies, combined, groups[g])
    ensures r.Ok? ==> forall i :: 0 <= i < |bodies| && i !in Flatten(groups) ==> combined[i] == bodies[i]
    ensures r.Ok? && contacts.adj != map[] ==> r.value == Filter(combined, Alive)
    ensures r.Ok? && contacts.adj != map[] ==> forall b :: b in r.value ==> b.alive
    ensures r.Ok? && (forall i :: 0 <= i < |bodies| ==> bodies[i].alive) ==> TotalMass(r.value) == TotalMass(bodies)
  {
    contacts := RecordOverlaps(bodies, overlaps);
    ContactsSymmetric(bodies, overlaps, contacts);
    groups := FormGroups(contacts);
    GroupedAreBodies(bodies, overlaps, contacts, groups);
    combined := bodies;
    if contacts.adj == map[] {
      r := Ok(bodies);
      return;
    }
    FlattenDisjoint(groups);
    for n := 0 to |groups|
      invariant CombinedGroups(bodies, groups, combined, n)
    {
      var res := CombineBodies(combined, groups[n]);
      if res.Err? {
        CombineGroupStepFails(bodies, groups, combined, n);
        assert !Mergeable(Members(bodies, groups[n]));
        r := Err(res.error);
        return;
      }
      CombineGroupStep(bodies, groups, combined, n, res.value);
      combined := res.value;
    }
    forall i | 0 <= i < |bodies| && i !in Flatten(groups)
      ensures combined[i] == bodies[i]
    {
      InFlatten(groups, i);
    }
    var live := RemoveRejectedBackward(combined, Alive);
    TotalMassOfLive(combined);
    r := Ok(live);
  }

  lemma CombineGroupStepFails(bodies: seq<Body>, groups: seq<seq<nat>>, combined: seq<Body>, n: nat)
    requires n < |groups|
    requires forall g, t :: 0 <= g < |groups| && 0 <= t < |groups[g]| ==> groups[g][t] < |bodies|
    requires forall g, h, x :: 0 <= g < |groups| && 0 <= h < |groups| && g != h && x in groups[g] ==> x !in groups[h]
    requires CombinedGroups(bodies, groups, combined, n)
    ensures Members(combined, groups[n]) == Members(bodies, groups[n])
  {
    var group := groups[n];
    forall t | 0 <= t < |group|
      ensures combined[group[t]] == bodies[group[t]]
    {
      forall g | 0 <= g < n
        ensures group[t] !in groups[g]
      {
      }
    }
  }
}
