/**
 * Integer 2-D grids (the numpy frames and event maps) as sequences of rows,
 * elementwise addition and the elementwise sum of a list of maps.
 */
module Grids {

  /** A grid of integer samples, row by row. */
  type Grid = seq<seq<int>>

  /** Number of columns; a grid without rows has none. */
  function Width(g: Grid): nat
  {
    if |g| == 0 then 0 else |g[0]|
  }

  /** Every row has the same length, as in a 2-D numpy array. */
  predicate IsRect(g: Grid)
  {
    forall i :: 0 <= i < |g| ==> |g[i]| == Width(g)
  }

  predicate SameShape(a: Grid, b: Grid)
  {
    |a| == |b| && Width(a) == Width(b)
  }

  /** Elementwise `a + b` of two grids of one shape. */
  function Add(a: Grid, b: Grid): (s: Grid)
    requires IsRect(a) && IsRect(b) && SameShape(a, b)
    ensures IsRect(s) && SameShape(s, a)
    ensures forall i, j :: 0 <= i < |a| && 0 <= j < Width(a) ==> s[i][j] == a[i][j] + b[i][j]
  {
    seq(|a|, i requires 0 <= i < |a| => seq(Width(a), j requires 0 <= j < Width(a) => a[i][j] + b[i][j]))
  }

  /** Two rectangular grids of one shape that agree cell by cell are equal. */
  lemma GridExt(a: Grid, b: Grid)
    requires IsRect(a) && IsRect(b) && SameShape(a, b)
    requires forall i, j :: 0 <= i < |a| && 0 <= j < Width(a) ==> a[i][j] == b[i][j]
    ensures a == b
  {
    forall i | 0 <= i < |a|
      ensures a[i] == b[i]
    {
      assert |a[i]| == |b[i]| == Width(a);
    }
  }

  lemma AddCommutes(a: Grid, b: Grid)
    requires IsRect(a) && IsRect(b) && SameShape(a, b)
    ensures Add(a, b) == Add(b, a)
  {
    GridExt(Add(a, b), Add(b, a));
  }

  lemma AddAssociates(a: Grid, b: Grid, c: Grid)
    requires IsRect(a) && IsRect(b) && IsRect(c) && SameShape(a, b) && SameShape(a, c)
    ensures Add(Add(a, b), c) == Add(a, Add(b, c))
  {
    GridExt(Add(Add(a, b), c), Add(a, Add(b, c)));
  }

  /** Every map of the list is rectangular and shaped like the first. */
  predicate Uniform(ms: seq<Grid>)
  {
    forall k :: 0 <= k < |ms| ==> IsRect(ms[k]) && SameShape(ms[k], ms[0])
  }

  /** The value of cell (i, j) summed over every map of the list. */
  function CellTotal(ms: seq<Grid>, i: nat, j: nat): int
    requires forall k :: 0 <= k < |ms| ==> i < |ms[k]| && j < |ms[k][i]|
  {
    if |ms| == 0 then 0 else CellTotal(ms[..|ms| - 1], i, j) + ms[|ms| - 1][i][j]
  }

  /**
   * The running sum of a non-empty list of maps, added left to right the way
   * `sum_array += current_array` does.
   */
  function SumOf(ms: seq<Grid>): (s: Grid)
    requires |ms| > 0 && Uniform(ms)
    ensures IsRect(s) && SameShape(s, ms[0])
  {
    if |ms| == 1 then ms[0]
    else
      assert ms[..|ms| - 1][0] == ms[0];
      Add(SumOf(ms[..|ms| - 1]), ms[|ms| - 1])
  }

  /** Cell by cell, the running sum is the total of that cell over all the maps. */
  lemma {:induction false} SumOfCells(ms: seq<Grid>, i: nat, j: nat)
    requires |ms| > 0 && Uniform(ms) && i < |ms[0]| && j < Width(ms[0])
    ensures forall k :: 0 <= k < |ms| ==> i < |ms[k]| && j < |ms[k][i]|
    ensures SumOf(ms)[i][j] == CellTotal(ms, i, j)
  {
    if |ms| > 1 {
      var init := ms[..|ms| - 1];
      assert init[0] == ms[0];
      SumOfCells(init, i, j);
    } else {
      assert ms[..0] == [];
    }
  }

  /** Adding one more map to the running sum: the streaming accumulator's step. */
  lemma SumOfSnoc(ms: seq<Grid>, m: Grid)
    requires |ms| > 0 && Uniform(ms) && IsRect(m) && SameShape(m, ms[0])
    ensures Uniform(ms + [m])
    ensures SumOf(ms + [m]) == Add(SumOf(ms), m)
  {
    assert (ms + [m])[..|ms|] == ms;
    assert (ms + [m])[0] == ms[0];
  }

  /** A cell's total over a concatenation is the sum of its totals over the parts. */
  lemma {:induction false} CellTotalAppend(a: seq<Grid>, b: seq<Grid>, i: nat, j: nat)
    requires forall k :: 0 <= k < |a + b| ==> i < |(a + b)[k]| && j < |(a + b)[k][i]|
    ensures forall k :: 0 <= k < |a| ==> i < |a[k]| && j < |a[k][i]|
    ensures forall k :: 0 <= k < |b| ==> i < |b[k]| && j < |b[k][i]|
    ensures CellTotal(a + b, i, j) == CellTotal(a, i, j) + CellTotal(b, i, j)
  {
    assert forall k :: 0 <= k < |a| ==> a[k] == (a + b)[k];
    assert forall k :: 0 <= k < |b| ==> b[k] == (a + b)[|a| + k];
    if |b| == 0 {
      assert a + b == a;
    } else {
      var init := b[..|b| - 1];
      assert (a + b)[..|a + b| - 1] == a + init;
      assert (a + b)[|a + b| - 1] == b[|b| - 1];
      CellTotalAppend(a, init, i, j);
    }
  }

  /** Every map of the list has a cell (i, j). */
  predicate HasCell(ms: seq<Grid>, i: nat, j: nat)
  {
    forall k :: 0 <= k < |ms| ==> i < |ms[k]| && j < |ms[k][i]|
  }

  /** Removing the map at index `p` takes its cell value out of the total. */
  lemma CellTotalRemove(ns: seq<Grid>, p: int, i: nat, j: nat)
    requires 0 <= p < |ns|
    requires forall k :: 0 <= k < |ns| ==> i < |ns[k]| && j < |ns[k][i]|
    ensures HasCell(ns[..p] + ns[p + 1..], i, j)
    ensures CellTotal(ns, i, j) == CellTotal(ns[..p] + ns[p + 1..], i, j) + ns[p][i][j]
  {
    var front, back, single := ns[..p], ns[p + 1..], [ns[p]];
    assert ns == front + single + back;
    CellTotalAppend(front + single, back, i, j);
    CellTotalAppend(front, single, i, j);
    CellTotalAppend(front, back, i, j);
    assert CellTotal(single, i, j) == ns[p][i][j] by {
      assert single[..0] == [];
    }
  }

  /** Removing the element at index `p` removes one copy of it from the multiset. */
  lemma MultisetRemove(ns: seq<Grid>, p: int)
    requires 0 <= p < |ns|
    ensures multiset(ns[..p] + ns[p + 1..]) == multiset(ns) - multiset{ns[p]}
  {
    assert ns == ns[..p] + [ns[p]] + ns[p + 1..];
  }

  /** A cell's total does not depend on the order of the maps. */
  lemma {:induction false} CellTotalPermutation(ms: seq<Grid>, ns: seq<Grid>, i: nat, j: nat)
    requires multiset(ms) == multiset(ns)
    requires forall k :: 0 <= k < |ms| ==> i < |ms[k]| && j < |ms[k][i]|
    ensures forall k :: 0 <= k < |ns| ==> i < |ns[k]| && j < |ns[k][i]|
    ensures CellTotal(ms, i, j) == CellTotal(ns, i, j)
    decreases |ms|
  {
    forall k | 0 <= k < |ns|
      ensures i < |ns[k]| && j < |ns[k][i]|
    {
      assert ns[k] in multiset(ms);
      var l :| 0 <= l < |ms| && ms[l] == ns[k];
    }
    if |ms| == 0 {
      assert |ns| == |multiset(ns)| == 0;
    } else {
      var last := |ms| - 1;
      var x := ms[last];
      assert x in multiset(ns) by {
        assert x in multiset(ms);
      }
      var p :| 0 <= p < |ns| && ns[p] == x;
      MultisetRemove(ms, last);
      MultisetRemove(ns, p);
      assert ms[..last] + ms[last + 1..] == ms[..last];
      CellTotalPermutation(ms[..last], ns[..p] + ns[p + 1..], i, j);
      CellTotalRemove(ns, p, i, j);
    }
  }

  /**
   * The running sum does not depend on the order in which the maps are
   * folded: any rearrangement of the list gives the same sum.
   */
  lemma SumOfPermutation(ms: seq<Grid>, ns: seq<Grid>)
    requires |ms| > 0 && Uniform(ms) && multiset(ms) == multiset(ns)
    ensures |ns| > 0 && Uniform(ns)
    ensures SumOf(ms) == SumOf(ns)
  {
    assert |ns| == |multiset(ns)| == |multiset(ms)| == |ms|;
    forall k | 0 <= k < |ns|
      ensures IsRect(ns[k]) && SameShape(ns[k], ms[0])
    {
      assert ns[k] in multiset(ms);
      var l :| 0 <= l < |ms| && ms[l] == ns[k];
    }
    var s1, s2 := SumOf(ms), SumOf(ns);
    forall i, j | 0 <= i < |s1| && 0 <= j < Width(s1)
      ensures s1[i][j] == s2[i][j]
    {
      SumOfCells(ms, i, j);
      SumOfCells(ns, i, j);
      CellTotalPermutation(ms, ns, i, j);
    }
    GridExt(s1, s2);
  }

  /** In particular, swapping the last two maps leaves the sum unchanged. */
  lemma SumOfSwapLast(ms: seq<Grid>, a: Grid, b: Grid)
    requires Uniform(ms + [a, b])
    ensures Uniform(ms + [b, a])
    ensures SumOf(ms + [a, b]) == SumOf(ms + [b, a])
  {
    assert multiset(ms + [a, b]) == multiset(ms + [b, a]) by {
      assert ms + [a, b] == ms + [a] + [b];
      assert ms + [b, a] == ms + [b] + [a];
    }
    SumOfPermutation(ms + [a, b], ms + [b, a]);
  }

  /** The contents of a 2-D array as a grid. */
  function Contents(a: array2<int>): (g: Grid)
    reads a
    ensures |g| == a.Length0 && IsRect(g) && (a.Length0 > 0 ==> Width(g) == a.Length1)
    ensures forall i, j :: 0 <= i < a.Length0 && 0 <= j < a.Length1 ==> g[i][j] == a[i, j]
  {
    seq(a.Length0, i requires 0 <= i < a.Length0 reads a =>
      seq(a.Length1, j requires 0 <= j < a.Length1 reads a => a[i, j]))
  }

  /** In-place elementwise `dst += src` (numpy's `+=` on two arrays of one shape). */
  method AddInto(dst: array2<int>, src: array2<int>)
    requires dst != src && dst.Length0 == src.Length0 && dst.Length1 == src.Length1
    modifies dst
    ensures forall i, j :: 0 <= i < dst.Length0 && 0 <= j < dst.Length1 ==>
      dst[i, j] == old(dst[i, j]) + src[i, j]
  {
    for i := 0 to dst.Length0
      invariant forall r, c :: 0 <= r < dst.Length0 && 0 <= c < dst.Length1 ==>
        dst[r, c] == if r < i then old(dst[r, c]) + src[r, c] else old(dst[r, c])
    {
      for j := 0 to dst.Length1
        invariant forall r, c :: 0 <= r < dst.Length0 && 0 <= c < dst.Length1 ==>
          dst[r, c] == if r < i || (r == i && c < j) then old(dst[r, c]) + src[r, c] else old(dst[r, c])
      {
        dst[i, j] := dst[i, j] + src[i, j];
      }
    }
  }
}
