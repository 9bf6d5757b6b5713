/** The playing field: a mutable two-dimensional array of labels, with the
    mask operations the solver uses, the random seeding and growth of
    `generate_puzzle`, and `grab_pieces`. */
module Fields {
  import opened Grids
  import opened Trim
  import opened Pieces
  import opened Labels

  // ----------------------------------------------------- counting zeros

  function RowZeros(r: seq<int>): nat {
    if r == [] then 0 else (if r[0] == 0 then 1 else 0) + RowZeros(r[1..])
  }

  /** The number of free (zero) cells. */
  function ZeroCount(g: Blocks): nat {
    if g == [] then 0 else RowZeros(g[0]) + ZeroCount(g[1..])
  }

  lemma {:induction false} RowZerosSet(r: seq<int>, y: nat, v: int)
    requires y < |r| && r[y] == 0 && v != 0
    ensures RowZeros(r[y := v]) == RowZeros(r) - 1
  {
    if y > 0 {
      assert r[y := v][1..] == r[1..][y - 1 := v];
      RowZerosSet(r[1..], y - 1, v);
    }
  }

  /** Writing a nonzero label into a free cell uses up one free cell. */
  lemma {:induction false} ZeroCountSet(g: Blocks, x: nat, y: nat, v: int)
    requires x < |g| && y < |g[x]| && g[x][y] == 0 && v != 0
    ensures ZeroCount(SetCell(g, x, y, v)) == ZeroCount(g) - 1
  {
    var g' := SetCell(g, x, y, v);
    if x == 0 {
      RowZerosSet(g[0], y, v);
      assert g'[1..] == g[1..];
    } else {
      assert g'[1..] == SetCell(g[1..], x - 1, y, v);
      ZeroCountSet(g[1..], x - 1, y, v);
    }
  }

  lemma {:induction false} RowZerosPositive(r: seq<int>)
    ensures RowZeros(r) > 0 <==> exists y :: 0 <= y < |r| && r[y] == 0
  {
    if r != [] {
      RowZerosPositive(r[1..]);
      if exists y :: 0 <= y < |r| && r[y] == 0 {
        var y :| 0 <= y < |r| && r[y] == 0;
        if y > 0 {
          assert r[1..][y - 1] == 0;
        }
      }
    }
  }

  /** Some cell of g is free. */
  predicate HasZero(g: Blocks) {
    exists x, y :: 0 <= x < |g| && 0 <= y < |g[x]| && g[x][y] == 0
  }

  /** Some cell is free exactly when the count of free cells is positive. */
  lemma {:induction false} ZeroCountPositive(g: Blocks)
    ensures ZeroCount(g) > 0 <==> HasZero(g)
  {
    if g != [] {
      RowZerosPositive(g[0]);
      ZeroCountPositive(g[1..]);
      if HasZero(g) {
        var x, y :| 0 <= x < |g| && 0 <= y < |g[x]| && g[x][y] == 0;
        if x > 0 {
          assert g[1..][x - 1][y] == 0;
        }
      } else {
        assert !exists y :: 0 <= y < |g[0]| && g[0][y] == 0;
        assert !HasZero(g[1..]) by {
          forall x, y | 0 <= x < |g[1..]| && 0 <= y < |g[1..][x]| ensures g[1..][x][y] != 0 {
            assert g[1..][x] == g[x + 1];
          }
        }
      }
    }
  }

  lemma {:induction false} RowZerosAll(n: nat)
    ensures RowZeros(seq(n, _ => 0)) == n
  {
    if n > 0 {
      assert seq(n, _ => 0)[1..] == seq(n - 1, _ => 0);
      RowZerosAll(n - 1);
    }
  }

  /** A fresh field of w by h cells has w * h free cells. */
  lemma {:induction false} ZeroCountZeros(w: nat, h: nat)
    ensures ZeroCount(Zeros(w, h)) == w * h
  {
    if w > 0 {
      assert Zeros(w, h)[1..] == Zeros(w - 1, h);
      assert Zeros(w, h)[0] == seq(h, _ => 0);
      RowZerosAll(h);
      ZeroCountZeros(w - 1, h);
    }
  }

  // ---------------------------------------------------------- seeding

  /** g arises from g0 by writing labels 1 .. n into cells free in g0. */
  predicate SeededFrom(g0: Blocks, g: Blocks, n: int)
    requires SameShape(g0, g)
  {
    forall x, y :: 0 <= x < |g| && 0 <= y < |g[x]| ==>
      g[x][y] == g0[x][y] || (g0[x][y] == 0 && 1 <= g[x][y] <= n)
  }

  /** Some cell of g holds label k. */
  predicate Holds(g: Blocks, k: int) {
    exists x, y :: 0 <= x < |g| && 0 <= y < |g[x]| && g[x][y] == k
  }

  /** The state after the first i turns of the seeding loop, started on a
      non-negative field g0. */
  predicate SeedsPlaced(g0: Blocks, g: Blocks, i: nat) {
    SameShape(g0, g) && NonNeg(g) && SeededFrom(g0, g, i) &&
    ZeroCount(g) + i == ZeroCount(g0) &&
    forall k :: 1 <= k <= i ==> Holds(g, k)
  }

  /** Writing seed i + 1 into a free cell keeps the earlier seeds, adds the
      new one and uses up one free cell. */
  lemma SeedStep(g0: Blocks, g: Blocks, x: nat, y: nat, i: nat)
    requires SeedsPlaced(g0, g, i)
    requires x < |g| && y < |g[x]| && g[x][y] == 0
    ensures SeedsPlaced(g0, SetCell(g, x, y, i + 1), i + 1)
  {
    var g' := SetCell(g, x, y, i + 1);
    ZeroCountSet(g, x, y, i + 1);
    assert g'[x][y] == i + 1;
    forall k | 1 <= k <= i + 1 ensures Holds(g', k) {
      if k <= i {
        assert Holds(g, k);
        var a, b :| 0 <= a < |g| && 0 <= b < |g[a]| && g[a][b] == k;
        assert g'[a][b] == k;
      }
    }
  }

  /** Seeds labelled up to i are seeds labelled up to any n above i. */
  lemma SeededWeaken(g0: Blocks, g: Blocks, i: nat, n: nat)
    requires SameShape(g0, g) && SeededFrom(g0, g, i) && i <= n
    ensures SeededFrom(g0, g, n)
  {
  }

  // ------------------------------------------------------ growth step

  /** The labels of the nonzero orthogonal neighbours of (x, y), in the
      order left, right, up, down. */
  function Neighbours(g: Blocks, x: nat, y: nat): seq<int>
    requires IsRect(g) && x < Width(g) && y < Height(g)
  {
    (if x > 0 && g[x - 1][y] != 0 then [g[x - 1][y]] else []) +
    (if x < Width(g) - 1 && g[x + 1][y] != 0 then [g[x + 1][y]] else []) +
    (if y > 0 && g[x][y - 1] != 0 then [g[x][y - 1]] else []) +
    (if y < Height(g) - 1 && g[x][y + 1] != 0 then [g[x][y + 1]] else [])
  }

  /** (i, j) is one of the four cells next to (x, y). */
  predicate Adjacent(x: nat, y: nat, i: nat, j: nat) {
    (i + 1 == x && j == y) || (i == x + 1 && j == y) ||
    (i == x && j + 1 == y) || (i == x && j == y + 1)
  }

  /** The neighbour list holds exactly the nonzero labels next to the cell. */
  lemma NeighboursMeaning(g: Blocks, x: nat, y: nat)
    requires IsRect(g) && x < Width(g) && y < Height(g)
    ensures forall v :: v in Neighbours(g, x, y) <==>
      v != 0 && exists i: nat, j: nat :: i < Width(g) && j < Height(g) && Adjacent(x, y, i, j) && g[i][j] == v
  {
    var nb := Neighbours(g, x, y);
    forall v ensures v in nb <==>
      v != 0 && exists i: nat, j: nat :: i < Width(g) && j < Height(g) && Adjacent(x, y, i, j) && g[i][j] == v
    {
      if v != 0 && exists i: nat, j: nat :: i < Width(g) && j < Height(g) && Adjacent(x, y, i, j) && g[i][j] == v {
        var i: nat, j: nat :| i < Width(g) && j < Height(g) && Adjacent(x, y, i, j) && g[i][j] == v;
        assert |g[i]| == Height(g);
      }
      if v in nb {
        if x > 0 && g[x - 1][y] == v {
          assert Adjacent(x, y, x - 1, y);
        } else if x < Width(g) - 1 && g[x + 1][y] == v {
          assert Adjacent(x, y, x + 1, y);
        } else if y > 0 && g[x][y - 1] == v {
          assert Adjacent(x, y, x, y - 1);
        } else {
          assert Adjacent(x, y, x, y + 1);
        }
      }
    }
  }

  /** A neighbour's label is a label of the field. */
  lemma NeighbourValue(g: Blocks, x: nat, y: nat, v: int)
    requires IsRect(g) && x < Width(g) && y < Height(g) && v in Neighbours(g, x, y)
    ensures v in ValueSet(g)
  {
    NeighboursMeaning(g, x, y);
    var i: nat, j: nat :| i < Width(g) && j < Height(g) && Adjacent(x, y, i, j) && g[i][j] == v;
  }

  /** Writing v into one cell adds at most v to the labels. */
  lemma SetCellValues(g: Blocks, x: nat, y: nat, v: int)
    requires x < |g| && y < |g[x]|
    ensures ValueSet(SetCell(g, x, y, v)) <= ValueSet(g) + {v}
  {
    var g' := SetCell(g, x, y, v);
    forall u | u in ValueSet(g') ensures u in ValueSet(g) + {v} {
      var i, j :| 0 <= i < |g'| && 0 <= j < |g'[i]| && g'[i][j] == u;
      if i != x || j != y {
        assert g[i][j] == u;
      }
    }
  }

  // ---------------------------------------------------------- grabbing

  /** The outcome of grabbing the remaining labels, after pieces ps were
      already taken. */
  function Prepend(ps: seq<Piece>, r: (Blocks, Result<seq<Piece>>)): (Blocks, Result<seq<Piece>>) {
    (r.0, if r.1.Ok? then Ok(ps + r.1.value) else r.1)
  }

  /** Before the loop of `grab_pieces` nothing is taken yet. */
  lemma GrabStart(g: Blocks)
    requires IsRect(g)
    ensures (forall i :: 0 <= i < |SortedLabels(g)| ==> SortedLabels(g)[i] != 0) &&
      Grab(g) == Prepend([], GrabFrom(g, SortedLabels(g)))
  {
    hide NewPiece;
    hide SortedLabels;
    LabelsNonZero(g);
    var r := GrabFrom(g, SortedLabels(g));
    if r.1.Ok? {
      assert [] + r.1.value == r.1.value;
    }
  }

  /** After the loop every label is taken. */
  lemma GrabDone(ps: seq<Piece>, g: Blocks)
    requires IsRect(g)
    ensures Prepend(ps, GrabFrom(g, [])) == (g, Ok(ps))
  {
    assert ps + [] == ps;
  }

  /** One turn of the loop of `grab_pieces`. */
  lemma GrabFromStep(ps: seq<Piece>, g: Blocks, ks: seq<int>)
    requires IsRect(g) && |ks| > 0 && forall i :: 0 <= i < |ks| ==> ks[i] != 0
    ensures var mask := FloorMask(g, ks[0]);
      IsRect(Sub(g, mask)) &&
      match NewPiece(mask)
      case Err(e) => Prepend(ps, GrabFrom(g, ks)) == (Sub(g, mask), Err(e))
      case Ok(p) => Prepend(ps, GrabFrom(g, ks)) == Prepend(ps + [p], GrabFrom(Sub(g, mask), ks[1..]))
  {
    hide NewPiece;
    var mask := FloorMask(g, ks[0]);
    if NewPiece(mask).Ok? {
      var p := NewPiece(mask).value;
      var rest := GrabFrom(Sub(g, mask), ks[1..]);
      if rest.1.Ok? {
        assert ps + ([p] + rest.1.value) == (ps + [p]) + rest.1.value;
      }
    }
  }

  // --------------------------------------------------------- the field

  class Field {
    const blocks: array2<int>

    /** numpy cannot take the minimum or maximum of an empty array, so the
        field has at least one cell. */
    predicate Valid() {
      blocks.Length0 > 0 && blocks.Length1 > 0
    }

    /** The contents of the field as a value. */
    function Cells(): (g: Blocks)
      reads blocks
      ensures HasShape(g, blocks.Length0, blocks.Length1)
    {
      seq(blocks.Length0, x requires 0 <= x < blocks.Length0 reads blocks =>
        seq(blocks.Length1, y requires 0 <= y < blocks.Length1 reads blocks => blocks[x, y]))
    }

    /** `Field(width, height)`: all cells free. */
    constructor(width: nat, height: nat)
      requires width > 0 && height > 0
      ensures Valid() && fresh(blocks) && Cells() == Zeros(width, height)
    {
      blocks := new int[width, height]((x, y) => 0);
      new;
      CellsEqual(Cells(), Zeros(width, height));
    }

    /** `put_pm`: add a field-sized mask to the field. */
    method PutPm(pm: Blocks)
      requires HasShape(pm, blocks.Length0, blocks.Length1)
      modifies blocks
      ensures Cells() == Add(old(Cells()), pm)
    {
      ghost var before := Cells();
      forall x, y | 0 <= x < blocks.Length0 && 0 <= y < blocks.Length1 {
        blocks[x, y] := blocks[x, y] + pm[x][y];
      }
      CellsEqual(Cells(), Add(before, pm));
    }

    /** `take_pm`: subtract a field-sized mask from the field. */
    method TakePm(pm: Blocks)
      requires HasShape(pm, blocks.Length0, blocks.Length1)
      modifies blocks
      ensures Cells() == Sub(old(Cells()), pm)
    {
      ghost var before := Cells();
      forall x, y | 0 <= x < blocks.Length0 && 0 <= y < blocks.Length1 {
        blocks[x, y] := blocks[x, y] - pm[x][y];
      }
      CellsEqual(Cells(), Sub(before, pm));
    }

    /** `pm_fits`: the product of field and mask has maximum 0. Disjoint
        occupied cells always fit; on non-negative values fitting means
        exactly that no cell is occupied in both. */
    function PmFits(pm: Blocks): (r: bool)
      requires Valid() && HasShape(pm, blocks.Length0, blocks.Length1)
      reads blocks
      ensures Disjoint(Cells(), pm) ==> r
      ensures NonNeg(Cells()) && NonNeg(pm) ==> (r <==> Disjoint(Cells(), pm))
    {
      var g := Cells();
      if Disjoint(g, pm) then
        DisjointFits(g, pm);
        Fits(g, pm)
      else if NonNeg(g) && NonNeg(pm) then
        FitsIffDisjoint(g, pm);
        Fits(g, pm)
      else
        Fits(g, pm)
    }

    /** `blocks[x, y] = v`: one cell changes, the rest stay. */
    method SetBlock(x: nat, y: nat, v: int)
      requires x < blocks.Length0 && y < blocks.Length1
      modifies blocks
      ensures blocks[x, y] == v
      ensures forall i, j :: 0 <= i < blocks.Length0 && 0 <= j < blocks.Length1 && (i != x || j != y) ==>
        blocks[i, j] == old(blocks[i, j])
      ensures Cells() == SetCell(old(Cells()), x, y, v)
    {
      ghost var before := Cells();
      blocks[x, y] := v;
      var after, expected := Cells(), SetCell(before, x, y, v);
      forall a, b | 0 <= a < |after| && 0 <= b < |after[a]| ensures after[a][b] == expected[a][b] {
        if a == x && b == y {
          assert after[a][b] == v;
        } else {
          assert after[a][b] == blocks[a, b] == old(blocks[a, b]) == before[a][b];
        }
      }
      CellsEqual(after, expected);
    }

    /** `free_block_exists`: the smallest cell is 0. Then some cell is free;
        on a non-negative field the converse holds too. */
    function FreeBlockExists(): (r: bool)
      requires Valid()
      reads blocks
      ensures r ==> HasZero(Cells())
      ensures NonNeg(Cells()) ==> (r <==> HasZero(Cells()))
    {
      var g := Cells();
      if NonNeg(g) then
        HasFreeIffZeroCell(g);
        HasFree(g)
      else
        HasFree(g)
    }

    /** `get_free_block_xy`: 'No free block' when the smallest cell is not
        0, otherwise some free cell (the program draws cells at random until
        it hits a free one). */
    method GetFreeBlock() returns (r: Result<(nat, nat)>)
      requires Valid()
      ensures r.Err? <==> !FreeBlockExists()
      ensures r.Err? ==> r.error == NoFreeBlock
      ensures r.Ok? ==>
        r.value.0 < blocks.Length0 && r.value.1 < blocks.Length1 && blocks[r.value.0, r.value.1] == 0
    {
      if !FreeBlockExists() {
        return Err(NoFreeBlock);
      }
      var g := Cells();
      var x: nat, y: nat :| x < |g| && y < |g[x]| && g[x][y] == 0;
      return Ok((x, y));
    }

    /** The first loop of `generate_puzzle`: seeds labelled 1 .. n on free
        cells. It fails with 'No free block' exactly when there are fewer
        free cells than seeds, after using all of them up; otherwise every
        label 1 .. n is on the field. */
    method PlaceSeeds(n: nat) returns (r: Result<()>)
      requires Valid() && NonNeg(Cells())
      modifies blocks
      ensures r.Ok? <==> n <= old(ZeroCount(Cells()))
      ensures r.Err? ==> r.error == NoFreeBlock && ZeroCount(Cells()) == 0
      ensures r.Ok? ==> ZeroCount(Cells()) == old(ZeroCount(Cells())) - n
      ensures NonNeg(Cells()) && SameShape(old(Cells()), Cells()) && SeededFrom(old(Cells()), Cells(), n)
      ensures r.Ok? ==> forall k :: 1 <= k <= n ==> Holds(Cells(), k)
    {
      ghost var g0 := Cells();
      for i := 0 to n
        invariant SeedsPlaced(g0, Cells(), i)
      {
        var c := GetFreeBlock();
        if c.Err? {
          ZeroCountPositive(Cells());
          SeededWeaken(g0, Cells(), i, n);
          return Err(c.error);
        }
        var x, y := c.value.0, c.value.1;
        ghost var before := Cells();
        SeedStep(g0, before, x, y, i);
        SetBlock(x, y, i + 1);
      }
      return Ok(());
    }

    /** One pass of the growth loop of `generate_puzzle`, run while a free
        cell exists: a free cell (x, y) is chosen and, if it has nonzero
        neighbours, takes the label of one of them. Nothing else changes and
        no new label appears. */
    method GrowStep() returns (x: nat, y: nat)
      requires Valid() && FreeBlockExists()
      modifies blocks
      ensures x < blocks.Length0 && y < blocks.Length1 && old(blocks[x, y]) == 0
      ensures forall i, j :: 0 <= i < blocks.Length0 && 0 <= j < blocks.Length1 && (i != x || j != y) ==>
        blocks[i, j] == old(blocks[i, j])
      ensures var nb := Neighbours(old(Cells()), x, y);
        (nb == [] ==> blocks[x, y] == 0) && (nb != [] ==> blocks[x, y] in nb)
      ensures ValueSet(Cells()) <= ValueSet(old(Cells()))
    {
      hide Neighbours;
      hide ValueSet;
      var c := GetFreeBlock();
      x, y := c.value.0, c.value.1;
      var g := Cells();
      var nb := Neighbours(g, x, y);
      if nb != [] {
        var i :| 0 <= i < |nb|;
        NeighbourValue(g, x, y, nb[i]);
        SetCellValues(g, x, y, nb[i]);
        SetBlock(x, y, nb[i]);
      }
    }

    /** `grab_pieces`: for each label, largest first, take its floor-divide
        mask out of the field and build a piece from it. The field and the
        result are those of `Grab` on the field as it was. */
    method GrabPieces() returns (r: Result<seq<Piece>>)
      requires Valid()
      modifies blocks
      ensures (Cells(), r) == Grab(old(Cells()))
    {
      hide NewPiece;
      hide FloorMask;
      hide Sub;
      hide SortedLabels;
      hide Grab;
      hide GrabFrom;
      ghost var g0 := Cells();
      var order := SortedLabels(Cells());
      LabelsNonZero(g0);
      GrabStart(g0);
      assert order[0..] == order;
      var pieces := [];
      for i := 0 to |order|
        invariant IsRect(Cells())
        invariant Grab(g0) == Prepend(pieces, GrabFrom(Cells(), order[i..]))
      {
        var k := order[i];
        var mask := FloorMask(Cells(), k);
        GrabFromStep(pieces, Cells(), order[i..]);
        assert order[i..][1..] == order[i + 1..];
        TakePm(mask);
        var p := MakePiece(mask);
        if p.Err? {
          return Err(p.error);
        }
        pieces := pieces + [p.value];
      }
      assert order[|order|..] == [];
      GrabDone(pieces, Cells());
      return Ok(pieces);
    }
  }
}
