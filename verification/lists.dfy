/** Sequence helpers shared by several modelled operations. */
module Lists {

  /** Reference definition: the elements satisfying `keep`, in their original order. */
  function Filter<T>(s: seq<T>, keep: T -> bool): (r: seq<T>)
    ensures |r| <= |s|
    ensures forall x :: x in r ==> x in s && keep(x)
    ensures forall x :: x in s && keep(x) ==> x in r
  {
    if s == [] then [] else (if keep(s[0]) then [s[0]] else []) + Filter(s[1..], keep)
  }

  lemma {:induction false} FilterAppend<T>(a: seq<T>, b: seq<T>, keep: T -> bool)
    ensures Filter(a + b, keep) == Filter(a, keep) + Filter(b, keep)
  {
    if a == [] {
      assert a + b == b;
    } else {
      assert (a + b)[1..] == a[1..] + b;
      FilterAppend(a[1..], b, keep);
    }
  }

  lemma FilterAll<T>(s: seq<T>, keep: T -> bool)
    requires forall i :: 0 <= i < |s| ==> keep(s[i])
    ensures Filter(s, keep) == s
  {
    if s != [] {
      FilterAll(s[1..], keep);
    }
  }

  /**
   * `for (i = list.Count - 1; i >= 0; i--) if (!keep(list[i])) list.RemoveAt(i);`
   * Removing from the back leaves exactly the kept elements in their original order.
   */
  method RemoveRejectedBackward<T>(s: seq<T>, keep: T -> bool) returns (r: seq<T>)
    ensures r == Filter(s, keep)
  {
    r := s;
    var i := |s| - 1;
    while i >= 0
      invariant -1 <= i < |s|
      invariant r == s[..i + 1] + Filter(s[i + 1..], keep)
    {
      assert s[i..] == [s[i]] + s[i + 1..];
      FilterAppend([s[i]], s[i + 1..], keep);
      assert r[..i] == s[..i] && r[i] == s[i];
      if !keep(r[i]) {
        r := r[..i] + r[i + 1..];
      }
      assert s[..i + 1] == s[..i] + [s[i]];
      i := i - 1;
    }
    assert s[..0] == [] && s[0..] == s;
  }
}
