/** `Piece.trim` (generate.py): cutting off all-zero border rows and columns.
    The source tests each border line with `np.sum`, so a line is cut when its
    SUM is zero; for the non-negative arrays the program builds that means the
    line is empty. The functions below follow the four `while` loops one by
    one; the method Trim runs the loops themselves. */
module Trim {
  import opened Grids

  // ------------------------------------------------ numpy slicing helpers

  /** blocks[:, 1:] */
  function DropFirstCol(b: Blocks): Blocks
    requires forall x :: 0 <= x < |b| ==> |b[x]| > 0
  {
    seq(|b|, x requires 0 <= x < |b| => b[x][1..])
  }

  /** blocks[:, :-1] */
  function DropLastCol(b: Blocks): Blocks
    requires forall x :: 0 <= x < |b| ==> |b[x]| > 0
  {
    seq(|b|, x requires 0 <= x < |b| => b[x][..|b[x]| - 1])
  }

  lemma {:induction false} SumDropFirstCol(b: Blocks)
    requires forall x :: 0 <= x < |b| ==> |b[x]| > 0
    ensures Sum(DropFirstCol(b)) == Sum(b) - ColSum(b, 0)
  {
    if b != [] {
      assert DropFirstCol(b)[1..] == DropFirstCol(b[1..]);
      assert Column(b, 0)[1..] == Column(b[1..], 0);
      SumDropFirstCol(b[1..]);
    }
  }

  lemma {:induction false} SumDropLastCol(b: Blocks)
    requires |b| > 0 && |b[0]| > 0
    requires forall x :: 0 <= x < |b| ==> |b[x]| == |b[0]|
    ensures Sum(DropLastCol(b)) == Sum(b) - ColSum(b, |b[0]| - 1)
  {
    var c := |b[0]| - 1;
    RowSumSnoc(b[0]);
    if |b| > 1 {
      assert DropLastCol(b)[1..] == DropLastCol(b[1..]);
      assert Column(b, c)[1..] == Column(b[1..], c);
      SumDropLastCol(b[1..]);
    } else {
      assert b[1..] == [];
      assert DropLastCol(b)[1..] == [];
      assert Column(b, c)[1..] == [];
      assert Sum(DropLastCol(b)) == RowSum(b[0][..c]);
      assert Column(b, c) == [b[0][c]];
      assert [b[0][c]][1..] == [];
      assert RowSum([b[0][c]]) == b[0][c] + RowSum([]);
    }
  }

  // ---------------------------------------------- the four trimming loops

  /** `while not np.sum(self.blocks[0,:]): self.blocks = self.blocks[1:,:]` */
  function TrimTop(b: Blocks): (r: Blocks)
    requires IsRect(b) && Sum(b) != 0
    ensures IsRect(r) && Sum(r) == Sum(b) && RowSum(r[0]) != 0
    ensures Height(r) == Height(b) && |r| <= |b|
    decreases |b|
  {
    if RowSum(b[0]) != 0 then b
    else
      assert |b| > 1 by {
        assert Sum(b) == RowSum(b[0]) + Sum(b[1..]);
      }
      assert |b[1..][0]| == |b[0]|;
      TrimTop(b[1..])
  }

  /** `while not np.sum(self.blocks[-1,:]): self.blocks = self.blocks[:-1,:]` */
  function TrimBottom(b: Blocks): (r: Blocks)
    requires IsRect(b) && Sum(b) != 0
    ensures IsRect(r) && Sum(r) == Sum(b) && RowSum(r[|r| - 1]) != 0
    ensures Height(r) == Height(b) && |r| <= |b|
    decreases |b|
  {
    if RowSum(b[|b| - 1]) != 0 then b
    else
      SumSnoc(b);
      TrimBottom(b[..|b| - 1])
  }

  /** `while not np.sum(self.blocks[:,0]): self.blocks = self.blocks[:,1:]` */
  function TrimLeft(b: Blocks): (r: Blocks)
    requires IsRect(b) && Sum(b) != 0
    ensures IsRect(r) && Sum(r) == Sum(b) && ColSum(r, 0) != 0
    ensures |r| == |b| && Height(r) <= Height(b)
    decreases Height(b)
  {
    if ColSum(b, 0) != 0 then b
    else
      SumDropFirstCol(b);
      assert Height(b) > 1 by {
        if Height(b) == 1 {
          SumZero(DropFirstCol(b));
        }
      }
      TrimLeft(DropFirstCol(b))
  }

  /** `while not np.sum(self.blocks[:,-1]): self.blocks = self.blocks[:,:-1]` */
  function TrimRight(b: Blocks): (r: Blocks)
    requires IsRect(b) && Sum(b) != 0
    ensures IsRect(r) && Sum(r) == Sum(b) && ColSum(r, Height(r) - 1) != 0
    ensures |r| == |b| && Height(r) <= Height(b)
    decreases Height(b)
  {
    if ColSum(b, Height(b) - 1) != 0 then b
    else
      SumDropLastCol(b);
      assert Height(b) > 1 by {
        if Height(b) == 1 {
          SumZero(DropLastCol(b));
        }
      }
      TrimRight(DropLastCol(b))
  }

  /** A nonzero array whose first column sums to zero has a second column. */
  lemma WideWhenFirstColEmpty(b: Blocks)
    requires IsRect(b) && Sum(b) != 0 && ColSum(b, 0) == 0
    ensures Height(b) > 1
  {
    SumDropFirstCol(b);
    if Height(b) == 1 {
      SumZero(DropFirstCol(b));
    }
  }

  /** A nonzero array whose last column sums to zero has a second column. */
  lemma WideWhenLastColEmpty(b: Blocks)
    requires IsRect(b) && Sum(b) != 0 && ColSum(b, Height(b) - 1) == 0
    ensures Height(b) > 1
  {
    SumDropLastCol(b);
    if Height(b) == 1 {
      SumZero(DropLastCol(b));
    }
  }

  /** What `trim` leaves in `self.blocks`: an array whose sum is zero is left
      alone, any other goes through the four loops in order. */
  function Trimmed(b: Blocks): (r: Blocks)
    requires IsRect(b)
    ensures IsRect(r) && Width(r) <= Width(b) && Height(r) <= Height(b)
  {
    if Sum(b) == 0 then b else TrimRight(TrimLeft(TrimBottom(TrimTop(b))))
  }

  /** Piece.trim: an array with a zero sum is returned as it is; any other
      goes through the four loops, top, bottom, left and right in that order. */
  method Trim(b: Blocks) returns (t: Blocks)
    requires IsRect(b)
    ensures t == Trimmed(b)
  {
    t := b;
    if Sum(t) == 0 {
      return;
    }
    ghost var top, bottom, left;
    t := CutTop(t);
    top := t;
    t := CutBottom(t);
    bottom := t;
    t := CutLeft(t);
    left := t;
    t := CutRight(t);
    TrimmedSteps(b, top, bottom, left, t);
  }

  /** The first loop of `trim`. */
  method CutTop(b: Blocks) returns (t: Blocks)
    requires IsRect(b) && Sum(b) != 0
    ensures t == TrimTop(b)
  {
    t := b;
    while RowSum(t[0]) == 0
      invariant IsRect(t) && Sum(t) != 0
      invariant TrimTop(t) == TrimTop(b)
      decreases |t|
    {
      assert Sum(t) == RowSum(t[0]) + Sum(t[1..]);
      assert TrimTop(t) == TrimTop(t[1..]);
      t := t[1..];
    }
  }

  /** The second loop of `trim`. */
  method CutBottom(b: Blocks) returns (t: Blocks)
    requires IsRect(b) && Sum(b) != 0
    ensures t == TrimBottom(b)
  {
    t := b;
    while RowSum(t[|t| - 1]) == 0
      invariant IsRect(t) && Sum(t) != 0
      invariant TrimBottom(t) == TrimBottom(b)
      decreases |t|
    {
      SumSnoc(t);
      assert TrimBottom(t) == TrimBottom(t[..|t| - 1]);
      t := t[..|t| - 1];
    }
  }

  /** The third loop of `trim`. */
  method CutLeft(b: Blocks) returns (t: Blocks)
    requires IsRect(b) && Sum(b) != 0
    ensures t == TrimLeft(b)
  {
    t := b;
    while ColSum(t, 0) == 0
      invariant IsRect(t) && Sum(t) != 0
      invariant TrimLeft(t) == TrimLeft(b)
      decreases Height(t)
    {
      SumDropFirstCol(t);
      WideWhenFirstColEmpty(t);
      assert TrimLeft(t) == TrimLeft(DropFirstCol(t));
      t := DropFirstCol(t);
    }
  }

  /** The fourth loop of `trim`. */
  method CutRight(b: Blocks) returns (t: Blocks)
    requires IsRect(b) && Sum(b) != 0
    ensures t == TrimRight(b)
  {
    t := b;
    while ColSum(t, Height(t) - 1) == 0
      invariant IsRect(t) && Sum(t) != 0
      invariant TrimRight(t) == TrimRight(b)
      decreases Height(t)
    {
      SumDropLastCol(t);
      WideWhenLastColEmpty(t);
      assert TrimRight(t) == TrimRight(DropLastCol(t));
      t := DropLastCol(t);
    }
  }

  lemma TrimmedSteps(b: Blocks, top: Blocks, bottom: Blocks, left: Blocks, t: Blocks)
    requires IsRect(b) && Sum(b) != 0
    requires top == TrimTop(b) && bottom == TrimBottom(top)
    requires left == TrimLeft(bottom) && t == TrimRight(left)
    ensures t == Trimmed(b)
  {
  }

  // ------------------------------------------------------- trimmed shapes

  /** Every border line has a nonzero sum: the state in which all four loops
      stop at once. */
  predicate Borders(p: Blocks)
    requires IsRect(p)
  {
    RowSum(p[0]) != 0 && RowSum(p[|p| - 1]) != 0 &&
    ColSum(p, 0) != 0 && ColSum(p, Height(p) - 1) != 0
  }

  /** A shape `trim` leaves unchanged: empty, or with every border line used. */
  predicate IsTrimmed(p: Blocks) {
    IsRect(p) && (AllZero(p) || Borders(p))
  }

  /** t is the part of b at offset (x0, y0), and b is zero everywhere else. */
  ghost predicate Window(b: Blocks, t: Blocks, x0: nat, y0: nat) {
    IsRect(b) && IsRect(t) &&
    x0 + Width(t) <= Width(b) && y0 + Height(t) <= Height(b) &&
    (forall x, y :: 0 <= x < Width(t) && 0 <= y < Height(t) ==> t[x][y] == b[x0 + x][y0 + y]) &&
    (forall x, y ::
      (0 <= x < Width(b) && 0 <= y < Height(b) && !(x0 <= x < x0 + Width(t) && y0 <= y < y0 + Height(t)))
      ==> b[x][y] == 0)
  }

  lemma WindowRefl(b: Blocks)
    requires IsRect(b)
    ensures Window(b, b, 0, 0)
  {
  }

  lemma WindowTrans(b: Blocks, t: Blocks, u: Blocks, x0: nat, y0: nat, x1: nat, y1: nat)
    requires Window(b, t, x0, y0) && Window(t, u, x1, y1)
    ensures Window(b, u, x0 + x1, y0 + y1)
  {
    forall x, y | 0 <= x < Width(b) && 0 <= y < Height(b) &&
      !(x0 + x1 <= x < x0 + x1 + Width(u) && y0 + y1 <= y < y0 + y1 + Height(u))
      ensures b[x][y] == 0
    {
      if x0 <= x < x0 + Width(t) && y0 <= y < y0 + Height(t) {
        assert t[x - x0][y - y0] == 0;
      }
    }
  }

  lemma WindowNonNeg(b: Blocks, t: Blocks, x0: nat, y0: nat)
    requires Window(b, t, x0, y0) && NonNeg(b)
    ensures NonNeg(t)
  {
    forall x, y | 0 <= x < |t| && 0 <= y < |t[x]| ensures t[x][y] >= 0 {
      assert t[x][y] == b[x0 + x][y0 + y];
    }
  }

  /** A row of a window sums like the row of the array it came from. */
  lemma WindowRowSum(b: Blocks, t: Blocks, x0: nat, y0: nat, x: nat)
    requires Window(b, t, x0, y0) && x < Width(t)
    ensures RowSum(t[x]) == RowSum(b[x0 + x])
  {
    var r := b[x0 + x];
    assert t[x] == r[y0..y0 + Height(t)];
    RowSumSlice(r, y0, y0 + Height(t));
  }

  /** A column of a window sums like the column of the array it came from. */
  lemma WindowColSum(b: Blocks, t: Blocks, x0: nat, y0: nat, y: nat)
    requires Window(b, t, x0, y0) && y < Height(t)
    ensures ColSum(t, y) == ColSum(b, y0 + y)
  {
    var c := Column(b, y0 + y);
    assert Column(t, y) == c[x0..x0 + Width(t)];
    RowSumSlice(c, x0, x0 + Width(t));
  }

  predicate ZeroLine(r: seq<int>) {
    forall j :: 0 <= j < |r| ==> r[j] == 0
  }

  lemma DropTopWindow(b: Blocks)
    requires IsRect(b) && |b| > 1
    requires ZeroLine(b[0])
    ensures Window(b, b[1..], 1, 0)
  {
  }

  lemma DropBottomWindow(b: Blocks)
    requires IsRect(b) && |b| > 1
    requires ZeroLine(b[|b| - 1])
    ensures Window(b, b[..|b| - 1], 0, 0)
  {
  }

  lemma DropFirstColWindow(b: Blocks)
    requires IsRect(b) && Height(b) > 1
    requires forall x :: 0 <= x < |b| ==> b[x][0] == 0
    ensures Window(b, DropFirstCol(b), 0, 1)
  {
  }

  lemma DropLastColWindow(b: Blocks)
    requires IsRect(b) && Height(b) > 1
    requires forall x :: 0 <= x < |b| ==> b[x][Height(b) - 1] == 0
    ensures Window(b, DropLastCol(b), 0, 0)
  {
  }

  lemma {:induction false} TopWindow(b: Blocks)
    requires IsRect(b) && Sum(b) != 0 && NonNeg(b)
    ensures Window(b, TrimTop(b), |b| - |TrimTop(b)|, 0)
    decreases |b|
  {
    hide Window;
    if RowSum(b[0]) != 0 {
      WindowRefl(b);
    } else {
      RowSumNonNeg(b[0]);
      var rest := b[1..];
      assert Sum(b) == RowSum(b[0]) + Sum(rest);
      assert |b| > 1;
      assert TrimTop(b) == TrimTop(rest);
      DropTopWindow(b);
      WindowNonNeg(b, rest, 1, 0);
      TopWindow(rest);
      WindowTrans(b, rest, TrimTop(rest), 1, 0, |rest| - |TrimTop(rest)|, 0);
    }
  }

  lemma {:induction false} BottomWindow(b: Blocks)
    requires IsRect(b) && Sum(b) != 0 && NonNeg(b)
    ensures Window(b, TrimBottom(b), 0, 0)
    decreases |b|
  {
    hide Window;
    if RowSum(b[|b| - 1]) != 0 {
      WindowRefl(b);
    } else {
      SumSnoc(b);
      RowSumNonNeg(b[|b| - 1]);
      var rest := b[..|b| - 1];
      DropBottomWindow(b);
      WindowNonNeg(b, rest, 0, 0);
      BottomWindow(rest);
      WindowTrans(b, rest, TrimBottom(rest), 0, 0, 0, 0);
    }
  }

  lemma {:induction false} LeftWindow(b: Blocks)
    requires IsRect(b) && Sum(b) != 0 && NonNeg(b)
    ensures Window(b, TrimLeft(b), 0, Height(b) - Height(TrimLeft(b)))
    decreases Height(b)
  {
    hide Window;
    if ColSum(b, 0) != 0 {
      WindowRefl(b);
    } else {
      SumDropFirstCol(b);
      if Height(b) == 1 {
        SumZero(DropFirstCol(b));
      }
      RowSumNonNeg(Column(b, 0));
      var rest := DropFirstCol(b);
      forall x | 0 <= x < |b| ensures b[x][0] == 0 {
        assert Column(b, 0)[x] == b[x][0];
      }
      DropFirstColWindow(b);
      WindowNonNeg(b, rest, 0, 1);
      LeftWindow(rest);
      WindowTrans(b, rest, TrimLeft(rest), 0, 1, 0, Height(rest) - Height(TrimLeft(rest)));
    }
  }

  lemma {:induction false} RightWindow(b: Blocks)
    requires IsRect(b) && Sum(b) != 0 && NonNeg(b)
    ensures Window(b, TrimRight(b), 0, 0)
    decreases Height(b)
  {
    hide Window;
    if ColSum(b, Height(b) - 1) != 0 {
      WindowRefl(b);
    } else {
      SumDropLastCol(b);
      if Height(b) == 1 {
        SumZero(DropLastCol(b));
      }
      RowSumNonNeg(Column(b, Height(b) - 1));
      var rest := DropLastCol(b);
      forall x | 0 <= x < |b| ensures b[x][Height(b) - 1] == 0 {
        assert Column(b, Height(b) - 1)[x] == b[x][Height(b) - 1];
      }
      DropLastColWindow(b);
      WindowNonNeg(b, rest, 0, 0);
      RightWindow(rest);
      WindowTrans(b, rest, TrimRight(rest), 0, 0, 0, 0);
    }
  }

  /** The window that `trim` keeps of a non-negative array with a nonzero
      cell, and the fact that all four of its border lines are used. */
  lemma TrimmedWindow(b: Blocks) returns (x0: nat, y0: nat)
    requires IsRect(b) && NonNeg(b) && !AllZero(b)
    ensures Window(b, Trimmed(b), x0, y0) && Borders(Trimmed(b))
  {
    hide Window;
    hide Borders;
    hide TrimTop;
    hide TrimBottom;
    hide TrimLeft;
    hide TrimRight;
    SumNonNeg(b);
    var t1 := TrimTop(b);
    TopWindow(b);
    WindowNonNeg(b, t1, |b| - |t1|, 0);
    var t2 := TrimBottom(t1);
    BottomWindow(t1);
    WindowNonNeg(t1, t2, 0, 0);
    var t3 := TrimLeft(t2);
    LeftWindow(t2);
    WindowNonNeg(t2, t3, 0, Height(t2) - Height(t3));
    var t4 := TrimRight(t3);
    RightWindow(t3);
    x0, y0 := ComposeWindows(b, t1, t2, t3, t4, |b| - |t1|, Height(t2) - Height(t3));
    CutsKeepBorders(t1, t2, t3, t4, Height(t2) - Height(t3));
  }

  lemma ComposeWindows(b: Blocks, t1: Blocks, t2: Blocks, t3: Blocks, t4: Blocks, dx: nat, dy: nat)
    returns (x0: nat, y0: nat)
    requires Window(b, t1, dx, 0) && Window(t1, t2, 0, 0)
    requires Window(t2, t3, 0, dy) && Window(t3, t4, 0, 0)
    ensures x0 == dx && y0 == dy && Window(b, t4, x0, y0)
  {
    WindowTrans(b, t1, t2, dx, 0, 0, 0);
    WindowTrans(b, t2, t3, dx, 0, 0, dy);
    WindowTrans(b, t3, t4, dx, dy, 0, 0);
    x0, y0 := dx, dy;
  }

  /** The bottom, left and right cuts keep the border lines that the cuts
      before them made nonzero. */
  lemma CutsKeepBorders(t1: Blocks, t2: Blocks, t3: Blocks, t4: Blocks, dy: nat)
    requires IsRect(t1) && RowSum(t1[0]) != 0
    requires Window(t1, t2, 0, 0) && RowSum(t2[|t2| - 1]) != 0
    requires Window(t2, t3, 0, dy) && ColSum(t3, 0) != 0
    requires Window(t3, t4, 0, 0) && ColSum(t4, Height(t4) - 1) != 0
    requires |t3| == |t2| && |t4| == |t3|
    ensures Borders(t4)
  {
    WindowRowSum(t1, t2, 0, 0, 0);
    WindowRowSum(t2, t3, 0, dy, 0);
    WindowRowSum(t2, t3, 0, dy, |t3| - 1);
    WindowRowSum(t3, t4, 0, 0, 0);
    WindowRowSum(t3, t4, 0, 0, |t4| - 1);
    WindowColSum(t3, t4, 0, 0, 0);
  }

  /** `trim` leaves an array without a nonzero cell unchanged. */
  lemma TrimAllZero(b: Blocks)
    requires IsRect(b) && AllZero(b)
    ensures Trimmed(b) == b
  {
    SumZero(b);
  }

  /** On a non-negative array, `trim` keeps exactly the original cells: the
      result is a window of the input and everything outside it is zero. */
  lemma TrimKeepsCells(b: Blocks)
    requires IsRect(b) && NonNeg(b)
    ensures exists x0: nat, y0: nat :: Window(b, Trimmed(b), x0, y0)
  {
    if AllZero(b) {
      TrimAllZero(b);
      WindowRefl(b);
      assert Window(b, Trimmed(b), 0, 0);
    } else {
      var x0, y0 := TrimmedWindow(b);
    }
  }

  /** Some cell of the line is nonzero. */
  predicate LineUsed(r: seq<int>) {
    exists j :: 0 <= j < |r| && r[j] != 0
  }

  /** On a non-negative array with a nonzero cell, the trimmed result has a
      nonzero cell in its first and last row and its first and last column. */
  lemma TrimUsesBorders(b: Blocks)
    requires IsRect(b) && NonNeg(b) && !AllZero(b)
    ensures var t := Trimmed(b);
      LineUsed(t[0]) && LineUsed(t[Width(t) - 1]) &&
      LineUsed(Column(t, 0)) && LineUsed(Column(t, Height(t) - 1))
  {
    var x0, y0 := TrimmedWindow(b);
    BordersOccupied(Trimmed(b));
  }

  /** A border line with a nonzero sum holds a nonzero cell. */
  lemma BordersOccupied(t: Blocks)
    requires IsRect(t) && Borders(t)
    ensures LineUsed(t[0]) && LineUsed(t[Width(t) - 1])
    ensures LineUsed(Column(t, 0)) && LineUsed(Column(t, Height(t) - 1))
  {
    RowSumWitness(t[0]);
    RowSumWitness(t[|t| - 1]);
    RowSumWitness(Column(t, 0));
    RowSumWitness(Column(t, Height(t) - 1));
  }

  /** A shape whose border lines are all used, or that is empty, is a fixed
      point of `trim`. */
  lemma TrimmedFixpoint(p: Blocks)
    requires IsTrimmed(p)
    ensures Trimmed(p) == p
  {
    if AllZero(p) {
      TrimAllZero(p);
    }
  }

  /** On a non-negative array, `trim` produces a trimmed shape. */
  lemma TrimmedIsTrimmed(b: Blocks)
    requires IsRect(b) && NonNeg(b)
    ensures IsTrimmed(Trimmed(b))
  {
    if AllZero(b) {
      TrimAllZero(b);
    } else {
      var x0, y0 := TrimmedWindow(b);
    }
  }

  /** Trimming a non-negative array twice changes nothing more. */
  lemma TrimIdempotent(b: Blocks)
    requires IsRect(b) && NonNeg(b)
    ensures Trimmed(Trimmed(b)) == Trimmed(b)
  {
    TrimmedIsTrimmed(b);
    TrimmedFixpoint(Trimmed(b));
  }
}
