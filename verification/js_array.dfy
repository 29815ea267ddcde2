/**
 The forms of the built-ins `indexOf` and `splice` that `removeItem` uses.
 `indexOf(x)` scans from the front (no `fromIndex`) under value equality and
 answers -1 when the item is absent. `splice(start, deleteCount)` inserts
 nothing, reads a negative start as an offset from the end of the array, and
 is modelled by the array it leaves behind rather than the deleted elements.
 */
module JsArray {

  function Max(a: int, b: int): int { if a < b then b else a }
  function Min(a: int, b: int): int { if a < b then a else b }

  /** The scan `indexOf` performs: look at positions `k`, `k + 1`, ... in turn. */
  function IndexFrom<T(==)>(s: seq<T>, x: T, k: nat): int
    requires k <= |s|
    decreases |s| - k
  {
    if k == |s| then -1
    else if s[k] == x then k
    else IndexFrom(s, x, k + 1)
  }

  /** A scan from `k` finds the first position at or after `k` that holds `x`,
      and answers -1 when there is none. */
  lemma {:induction false} IndexFromFindsFirst<T>(s: seq<T>, x: T, k: nat)
    requires k <= |s|
    ensures IndexFrom(s, x, k) == -1 <==> x !in s[k..]
    ensures IndexFrom(s, x, k) != -1 ==>
      k <= IndexFrom(s, x, k) < |s| && s[IndexFrom(s, x, k)] == x && x !in s[k..IndexFrom(s, x, k)]
    decreases |s| - k
  {
    if k < |s| && s[k] != x {
      IndexFromFindsFirst(s, x, k + 1);
      assert s[k..] == [s[k]] + s[k + 1..];
      var r := IndexFrom(s, x, k + 1);
      if r != -1 {
        assert s[k..r] == [s[k]] + s[k + 1..r];
      }
    }
  }

  /** Index of the first element equal to `x`, or -1 when there is none. */
  function IndexOf<T(==)>(s: seq<T>, x: T): (r: int)
    ensures -1 <= r < |s|
    ensures 0 <= r < |s| ==> s[r] == x
    ensures forall k :: 0 <= k < |s| && (r == -1 || k < r) ==> s[k] != x
  {
    IndexFromFindsFirst(s, x, 0);
    assert s[0..] == s;
    IndexFrom(s, x, 0)
  }

  /** Where `splice` starts deleting: a negative start counts back from the end. */
  function ActualStart(len: nat, start: int): (a: nat)
    ensures a <= len
    ensures 0 <= start ==> a == Min(start, len)
    ensures start < 0 && -start <= len ==> a == len + start
    ensures start < 0 && len < -start ==> a == 0
  {
    if start < 0 then Max(len + start, 0) else Min(start, len)
  }

  /** The array left behind by `splice(start, deleteCount)` (the deleted part is dropped). */
  function Splice<T>(s: seq<T>, start: int, deleteCount: int): (r: seq<T>)
    ensures |r| <= |s|
    ensures |s| - |r| <= Max(deleteCount, 0)
    ensures deleteCount <= 0 ==> r == s
  {
    var first := ActualStart(|s|, start);
    var count := Min(Max(deleteCount, 0), |s| - first);
    s[..first] + s[first + count..]
  }

  /** Deleting one element at a valid index leaves everything around it, in order. */
  lemma SpliceRemovesAt<T>(s: seq<T>, i: int)
    requires 0 <= i < |s|
    ensures Splice(s, i, 1) == s[..i] + s[i + 1..]
    ensures |Splice(s, i, 1)| == |s| - 1
  {
  }

  /** `splice(-1, 1)` on a non-empty array deletes its last element. */
  lemma SpliceMinusOneDropsLast<T>(s: seq<T>)
    requires |s| > 0
    ensures Splice(s, -1, 1) == s[..|s| - 1]
  {
  }
}
