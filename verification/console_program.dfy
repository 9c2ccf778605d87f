/**
 * The scheduling part of `MechanicsConsole.Program.HeadToHead` and its
 * Fisher–Yates `Shuffle`. The stopwatch timing and the console output are
 * not modelled; `Random.Next(n + 1)` is the parameter `pick`, which the
 * library guarantees to answer within `[0, n]`.
 */
module ConsoleProgram {
  import opened Outcomes

  /** Exchange the elements at `i` and `j`. */
  function Swap<T>(s: seq<T>, i: nat, j: nat): (r: seq<T>)
    requires i < |s| && j < |s|
    ensures |r| == |s| && r[i] == s[j] && r[j] == s[i]
    ensures forall k :: 0 <= k < |s| && k != i && k != j ==> r[k] == s[k]
    ensures multiset(r) == multiset(s)
  {
    var r := s[i := s[j]][j := s[i]];
    SwapPermutes(s, i, j);
    r
  }

  lemma SwapPermutes<T>(s: seq<T>, i: nat, j: nat)
    requires i < |s| && j < |s|
    ensures multiset(s[i := s[j]][j := s[i]]) == multiset(s)
  {
    var t := s[i := s[j]];
    assert multiset(t) == multiset(s) - multiset{s[i]} + multiset{s[j]};
    assert multiset(t[j := s[i]]) == multiset(t) - multiset{t[j]} + multiset{s[i]};
  }

  /**
   * The shuffle as a recursion on the back position: with `n` elements still
   * in play, swap the last of them with the one at `pick(n - 1)`, then
   * shuffle the first `n - 1`.
   */
  function Shuffled<T>(s: seq<T>, pick: nat -> int, n: nat): (r: seq<T>)
    requires n <= |s|
    requires forall m: nat :: 0 <= pick(m) <= m
    ensures |r| == |s| && multiset(r) == multiset(s)
    ensures forall k :: n <= k < |s| ==> r[k] == s[k]
    decreases n
  {
    if n <= 1 then s
    else
      var k := pick(n - 1);
      Shuffled(Swap(s, k, n - 1), pick, n - 1)
  }

  /**
   * `Shuffle(list)`: walk the back position `n` down from the end, swapping
   * it with a position drawn from `[0, n]`. Only swaps happen, so the result
   * is a permutation of the input; lists of at most one element are left
   * alone.
   */
  method Shuffle<T>(list: seq<T>, pick: nat -> int) returns (r: seq<T>)
    requires forall m: nat :: 0 <= pick(m) <= m
    ensures r == Shuffled(list, pick, |list|)
    ensures |r| == |list| && multiset(r) == multiset(list)
    ensures |list| <= 1 ==> r == list
  {
    r := list;
    var n := |list|;
    while n > 1
      invariant 0 <= n <= |list| && |r| == |list|
      invariant Shuffled(r, pick, n) == Shuffled(list, pick, |list|)
    {
      n := n - 1;
      var k := pick(n);
      r := Swap(r, k, n);
    }
  }

  /** `Enumerable.Repeat(x, count)`. */
  function Repeat(x: int, count: nat): (r: seq<int>)
    ensures |r| == count && forall k :: 0 <= k < count ==> r[k] == x
  {
    seq(count, _ => x)
  }

  lemma {:induction false} RepeatCounts(x: int, count: nat)
    ensures multiset(Repeat(x, count))[x] == count
    ensures forall y :: y != x ==> multiset(Repeat(x, count))[y] == 0
  {
    if count > 0 {
      RepeatCounts(x, count - 1);
      assert Repeat(x, count) == Repeat(x, count - 1) + [x];
    }
  }

  /**
   * The list `funcIDsByGroup` before shuffling: each function index
   * repeated `numGroupsPerFunc` times, in order. A negative repeat count
   * makes `Enumerable.Repeat` throw as soon as there is a function.
   */
  method GroupSchedule(numFuncs: nat, numGroupsPerFunc: int) returns (r: Result<seq<int>>)
    ensures r.Err? <==> numFuncs > 0 && numGroupsPerFunc < 0
    ensures r.Err? ==> r.error == ArgumentOutOfRange
    ensures r.Ok? ==> |r.value| == numFuncs * (if numGroupsPerFunc < 0 then 0 else numGroupsPerFunc)
    ensures r.Ok? ==> forall i :: 0 <= i < numFuncs ==> multiset(r.value)[i] == numGroupsPerFunc
    ensures r.Ok? ==> forall x :: x in r.value ==> 0 <= x < numFuncs
  {
    if numFuncs > 0 && numGroupsPerFunc < 0 {
      return Err(ArgumentOutOfRange);
    }
    var g: nat := if numGroupsPerFunc < 0 then 0 else numGroupsPerFunc;
    var ids: seq<int> := [];
    var i := 0;
    while i < numFuncs
      invariant 0 <= i <= numFuncs && |ids| == i * g
      invariant forall x :: 0 <= x < i ==> multiset(ids)[x] == g
      invariant forall x :: x in ids ==> 0 <= x < i
    {
      RepeatCounts(i, g);
      assert i !in ids;
      assert multiset(ids)[i] == 0;
      assert multiset(ids + Repeat(i, g)) == multiset(ids) + multiset(Repeat(i, g));
      ids := ids + Repeat(i, g);
      i := i + 1;
    }
    r := Ok(ids);
  }

  lemma SameElements(a: seq<int>, b: seq<int>)
    requires multiset(a) == multiset(b)
    ensures forall x :: x in b ==> x in a
  {
    forall x | x in b
      ensures x in a
    {
      assert x in multiset(b);
    }
  }

  /** `timeByFuncID`: one entry per function index, each starting at zero ticks. */
  function InitialTimes(numFuncs: nat): (times: map<int, int>)
    ensures forall i :: i in times <==> 0 <= i < numFuncs
    ensures forall i :: i in times ==> times[i] == 0
  {
    if numFuncs == 0 then map[] else InitialTimes(numFuncs - 1)[numFuncs - 1 := 0]
  }

  /**
   * The schedule `HeadToHead` runs: the grouped function indices in shuffled
   * order, so each function still gets exactly `numGroupsPerFunc` groups,
   * together with the zeroed tick counters.
   */
  method HeadToHeadSchedule(numFuncs: nat, numGroupsPerFunc: int, pick: nat -> int)
    returns (r: Result<(seq<int>, map<int, int>)>)
    requires forall m: nat :: 0 <= pick(m) <= m
    ensures r.Err? <==> numFuncs > 0 && numGroupsPerFunc < 0
    ensures r.Ok? ==> |r.value.0| == numFuncs * (if numGroupsPerFunc < 0 then 0 else numGroupsPerFunc)
    ensures r.Ok? ==> forall i :: 0 <= i < numFuncs ==> multiset(r.value.0)[i] == numGroupsPerFunc
    ensures r.Ok? ==> forall x :: x in r.value.0 ==> 0 <= x < numFuncs
    ensures r.Ok? ==> r.value.1 == InitialTimes(numFuncs)
  {
    var grouped := GroupSchedule(numFuncs, numGroupsPerFunc);
    if grouped.Err? {
      return Err(grouped.error);
    }
    var shuffled := Shuffle(grouped.value, pick);
    SameElements(grouped.value, shuffled);
    r := Ok((shuffled, InitialTimes(numFuncs)));
  }
}
