/** Two-dimensional integer arrays laid out as numpy holds them in the
    generator: g[x][y], axis 0 is the x axis (the width) and axis 1 the y axis
    (the height). Both pieces and the playing field are arrays of this kind. */
module Grids {

  type Blocks = seq<seq<int>>

  /** g has w rows (x values) of h cells (y values) each. */
  predicate HasShape(g: Blocks, w: nat, h: nat) {
    |g| == w && forall x :: 0 <= x < w ==> |g[x]| == h
  }

  /** A rectangular array with at least one cell. */
  predicate IsRect(g: Blocks) {
    |g| > 0 && |g[0]| > 0 && HasShape(g, |g|, |g[0]|)
  }

  function Width(g: Blocks): nat { |g| }

  function Height(g: Blocks): nat
    requires |g| > 0
  {
    |g[0]|
  }

  predicate SameShape(a: Blocks, b: Blocks) {
    |a| == |b| && forall x :: 0 <= x < |a| ==> |a[x]| == |b[x]|
  }

  predicate AllZero(g: Blocks) {
    forall x, y :: 0 <= x < |g| && 0 <= y < |g[x]| ==> g[x][y] == 0
  }

  predicate NonNeg(g: Blocks) {
    forall x, y :: 0 <= x < |g| && 0 <= y < |g[x]| ==> g[x][y] >= 0
  }

  /** No cell is nonzero in both arrays. */
  predicate Disjoint(a: Blocks, b: Blocks)
    requires SameShape(a, b)
  {
    forall x, y :: 0 <= x < |a| && 0 <= y < |a[x]| ==> a[x][y] == 0 || b[x][y] == 0
  }

  /** numpy.zeros((w, h)) */
  function Zeros(w: nat, h: nat): (g: Blocks)
    ensures HasShape(g, w, h) && AllZero(g)
  {
    seq(w, _ => seq(h, _ => 0))
  }

  /** The array with the single cell (x, y) overwritten by v. */
  function SetCell(g: Blocks, x: nat, y: nat, v: int): Blocks
    requires x < |g| && y < |g[x]|
  {
    g[x := g[x][y := v]]
  }

  // ---------------------------------------------------------------- sums

  function RowSum(r: seq<int>): int {
    if r == [] then 0 else r[0] + RowSum(r[1..])
  }

  /** numpy.sum of the whole array. */
  function Sum(g: Blocks): int {
    if g == [] then 0 else RowSum(g[0]) + Sum(g[1..])
  }

  /** g[:, c] */
  function Column(g: Blocks, c: nat): seq<int>
    requires forall x :: 0 <= x < |g| ==> c < |g[x]|
  {
    seq(|g|, x requires 0 <= x < |g| => g[x][c])
  }

  function ColSum(g: Blocks, c: nat): int
    requires forall x :: 0 <= x < |g| ==> c < |g[x]|
  {
    RowSum(Column(g, c))
  }

  // ------------------------------------------------- element-wise arithmetic

  function Add(a: Blocks, b: Blocks): Blocks
    requires SameShape(a, b)
  {
    seq(|a|, x requires 0 <= x < |a| => seq(|a[x]|, y requires 0 <= y < |a[x]| => a[x][y] + b[x][y]))
  }

  function Sub(a: Blocks, b: Blocks): Blocks
    requires SameShape(a, b)
  {
    seq(|a|, x requires 0 <= x < |a| => seq(|a[x]|, y requires 0 <= y < |a[x]| => a[x][y] - b[x][y]))
  }

  function Mul(a: Blocks, b: Blocks): Blocks
    requires SameShape(a, b)
  {
    seq(|a|, x requires 0 <= x < |a| => seq(|a[x]|, y requires 0 <= y < |a[x]| => a[x][y] * b[x][y]))
  }

  // ---------------------------------------------------- numpy.amax / amin

  function RowMax(r: seq<int>): (m: int)
    requires |r| > 0
    ensures forall j :: 0 <= j < |r| ==> r[j] <= m
    ensures exists j :: 0 <= j < |r| && r[j] == m
  {
    if |r| == 1 then r[0]
    else
      var t := RowMax(r[1..]);
      assert forall j :: 1 <= j < |r| ==> r[j] == r[1..][j - 1];
      if r[0] >= t then r[0] else t
  }

  function RowMin(r: seq<int>): (m: int)
    requires |r| > 0
    ensures forall j :: 0 <= j < |r| ==> m <= r[j]
    ensures exists j :: 0 <= j < |r| && r[j] == m
  {
    if |r| == 1 then r[0]
    else
      var t := RowMin(r[1..]);
      assert forall j :: 1 <= j < |r| ==> r[j] == r[1..][j - 1];
      if r[0] <= t then r[0] else t
  }

  predicate RowsNonEmpty(g: Blocks) {
    |g| > 0 && forall x :: 0 <= x < |g| ==> |g[x]| > 0
  }

  /** numpy.amax: the largest cell, which some cell attains. */
  function GridMax(g: Blocks): (m: int)
    requires RowsNonEmpty(g)
    ensures forall x, y :: 0 <= x < |g| && 0 <= y < |g[x]| ==> g[x][y] <= m
    ensures exists x, y :: 0 <= x < |g| && 0 <= y < |g[x]| && g[x][y] == m
  {
    var r := RowMax(g[0]);
    if |g| == 1 then r
    else
      var t := GridMax(g[1..]);
      assert forall x :: 1 <= x < |g| ==> g[x] == g[1..][x - 1];
      if r >= t then r else t
  }

  /** numpy.amin: the smallest cell, which some cell attains. */
  function GridMin(g: Blocks): (m: int)
    requires RowsNonEmpty(g)
    ensures forall x, y :: 0 <= x < |g| && 0 <= y < |g[x]| ==> m <= g[x][y]
    ensures exists x, y :: 0 <= x < |g| && 0 <= y < |g[x]| && g[x][y] == m
  {
    var r := RowMin(g[0]);
    if |g| == 1 then r
    else
      var t := GridMin(g[1..]);
      assert forall x :: 1 <= x < |g| ==> g[x] == g[1..][x - 1];
      if r <= t then r else t
  }

  /** `not np.amax(a * b)`: the element-wise product has maximum exactly 0. */
  predicate Fits(a: Blocks, b: Blocks)
    requires SameShape(a, b) && RowsNonEmpty(a)
  {
    GridMax(Mul(a, b)) == 0
  }

  /** `np.amin(a) == 0` */
  predicate HasFree(g: Blocks)
    requires RowsNonEmpty(g)
  {
    GridMin(g) == 0
  }

  // ------------------------------------------------------------- lemmas

  /** Two arrays of the same shape with the same cells are equal. */
  lemma CellsEqual(a: Blocks, b: Blocks)
    requires SameShape(a, b)
    requires forall x, y :: 0 <= x < |a| && 0 <= y < |a[x]| ==> a[x][y] == b[x][y]
    ensures a == b
  {
    forall x | 0 <= x < |a| ensures a[x] == b[x] {
      assert |a[x]| == |b[x]|;
    }
  }

  /** Applying a mask and then taking it back restores the array. */
  lemma AddThenSub(g: Blocks, m: Blocks)
    requires SameShape(g, m)
    ensures SameShape(Add(g, m), m) && Sub(Add(g, m), m) == g
  {
    CellsEqual(Sub(Add(g, m), m), g);
  }

  /** On non-negative arrays, fitting is exactly disjointness of the
      occupied cells. */
  lemma FitsIffDisjoint(a: Blocks, b: Blocks)
    requires SameShape(a, b) && RowsNonEmpty(a)
    requires NonNeg(a) && NonNeg(b)
    ensures Fits(a, b) <==> Disjoint(a, b)
  {
    hide Mul;
    MulCells(a, b);
    var p := Mul(a, b);
    if Disjoint(a, b) {
      DisjointFits(a, b);
    }
    if Fits(a, b) {
      forall x, y | 0 <= x < |a| && 0 <= y < |a[x]| ensures a[x][y] == 0 || b[x][y] == 0 {
        assert p[x][y] <= 0;
        if a[x][y] != 0 && b[x][y] != 0 {
          ProductPositive(a[x][y], b[x][y]);
        }
      }
    }
  }

  lemma ProductPositive(i: int, j: int)
    requires i > 0 && j > 0
    ensures i * j > 0
  {
  }

  /** The cells of the element-wise product. */
  lemma MulCells(a: Blocks, b: Blocks)
    requires SameShape(a, b) && RowsNonEmpty(a)
    ensures SameShape(Mul(a, b), a) && RowsNonEmpty(Mul(a, b))
    ensures forall x, y :: 0 <= x < |a| && 0 <= y < |a[x]| ==> Mul(a, b)[x][y] == a[x][y] * b[x][y]
  {
  }

  /** Whatever the signs, disjoint arrays fit. */
  lemma DisjointFits(a: Blocks, b: Blocks)
    requires SameShape(a, b) && RowsNonEmpty(a) && Disjoint(a, b)
    ensures Fits(a, b)
  {
    hide Mul;
    MulCells(a, b);
    var p := Mul(a, b);
    var x, y :| 0 <= x < |p| && 0 <= y < |p[x]| && p[x][y] == GridMax(p);
    assert a[x][y] == 0 || b[x][y] == 0;
  }

  /** On a non-negative array, `np.amin == 0` means some cell is zero. */
  lemma HasFreeIffZeroCell(g: Blocks)
    requires RowsNonEmpty(g) && NonNeg(g)
    ensures HasFree(g) <==> exists x, y :: 0 <= x < |g| && 0 <= y < |g[x]| && g[x][y] == 0
  {
    if !HasFree(g) {
      var x, y :| 0 <= x < |g| && 0 <= y < |g[x]| && g[x][y] == GridMin(g);
      assert GridMin(g) > 0;
    }
  }

  // ---------------------------------------------------------- sum lemmas

  lemma {:induction false} RowSumZero(r: seq<int>)
    requires forall j :: 0 <= j < |r| ==> r[j] == 0
    ensures RowSum(r) == 0
  {
    if r != [] {
      RowSumZero(r[1..]);
    }
  }

  /** A line of non-negative cells sums to zero only when all its cells are zero. */
  lemma {:induction false} RowSumNonNeg(r: seq<int>)
    requires forall j :: 0 <= j < |r| ==> r[j] >= 0
    ensures RowSum(r) >= 0
    ensures RowSum(r) == 0 ==> forall j :: 0 <= j < |r| ==> r[j] == 0
  {
    if r != [] {
      RowSumNonNeg(r[1..]);
      assert forall j :: 1 <= j < |r| ==> r[j] == r[1..][j - 1];
    }
  }

  /** A line with a nonzero sum has a nonzero cell. */
  lemma RowSumWitness(r: seq<int>)
    requires RowSum(r) != 0
    ensures exists j :: 0 <= j < |r| && r[j] != 0
  {
    if forall j :: 0 <= j < |r| ==> r[j] == 0 {
      RowSumZero(r);
    }
  }

  lemma {:induction false} RowSumAppend(a: seq<int>, b: seq<int>)
    ensures RowSum(a + b) == RowSum(a) + RowSum(b)
  {
    if a == [] {
      assert a + b == b;
    } else {
      assert (a + b)[1..] == a[1..] + b;
      RowSumAppend(a[1..], b);
    }
  }

  lemma RowSumSnoc(r: seq<int>)
    requires |r| > 0
    ensures RowSum(r) == RowSum(r[..|r| - 1]) + r[|r| - 1]
  {
    assert r == r[..|r| - 1] + [r[|r| - 1]];
    RowSumAppend(r[..|r| - 1], [r[|r| - 1]]);
  }

  /** Cells outside [lo, hi) that are zero do not contribute to a line's sum. */
  lemma RowSumSlice(r: seq<int>, lo: nat, hi: nat)
    requires lo <= hi <= |r|
    requires forall j :: 0 <= j < |r| && !(lo <= j < hi) ==> r[j] == 0
    ensures RowSum(r) == RowSum(r[lo..hi])
  {
    assert r == r[..lo] + r[lo..hi] + r[hi..];
    RowSumAppend(r[..lo] + r[lo..hi], r[hi..]);
    RowSumAppend(r[..lo], r[lo..hi]);
    RowSumZero(r[..lo]);
    RowSumZero(r[hi..]);
  }

  /** A line read backwards has the same sum. */
  lemma {:induction false} RowSumReversed(r: seq<int>, s: seq<int>)
    requires |s| == |r|
    requires forall j :: 0 <= j < |r| ==> s[j] == r[|r| - 1 - j]
    ensures RowSum(s) == RowSum(r)
  {
    if r != [] {
      RowSumSnoc(r);
      RowSumReversed(r[..|r| - 1], s[1..]);
    }
  }

  lemma {:induction false} SumZero(g: Blocks)
    requires AllZero(g)
    ensures Sum(g) == 0
  {
    if g != [] {
      RowSumZero(g[0]);
      assert forall x :: 1 <= x < |g| ==> g[x] == g[1..][x - 1];
      SumZero(g[1..]);
    }
  }

  /** A non-negative array sums to zero exactly when it is all zero. */
  lemma {:induction false} SumNonNeg(g: Blocks)
    requires NonNeg(g)
    ensures Sum(g) >= 0
    ensures Sum(g) == 0 <==> AllZero(g)
  {
    if g != [] {
      RowSumNonNeg(g[0]);
      assert forall x :: 1 <= x < |g| ==> g[x] == g[1..][x - 1];
      SumNonNeg(g[1..]);
      if AllZero(g) {
        SumZero(g);
      }
    }
  }

  lemma {:induction false} SumSnoc(g: Blocks)
    requires |g| > 0
    ensures Sum(g) == Sum(g[..|g| - 1]) + RowSum(g[|g| - 1])
  {
    if |g| > 1 {
      assert g[1..][..|g| - 2] == g[..|g| - 1][1..];
      SumSnoc(g[1..]);
    }
  }
}
