/** A worked instance: a field of two cells labelled 1 and 2. Grabbing it
    gives two one-cell pieces, and the backtracking counts two solutions,
    because the order of the pieces is fixed and the first may take either
    cell. */
module Scenario {
  import opened Grids
  import opened Trim
  import opened Pieces
  import opened Symmetry
  import opened Placements
  import opened Labels
  import opened Solver

  /** The piece of a single cell holding k. */
  function Unit(k: int): Blocks {
    [[k]]
  }

  /** A single nonzero cell is a valid trimmed piece that every turn and
      flip leaves unchanged. */
  lemma UnitFixed(k: int)
    requires k != 0
    ensures ValidPiece(Piece(Unit(k))) && IsTrimmed(Unit(k)) && Borders(Unit(k))
    ensures Rot90(Unit(k)) == Unit(k) && FlipUD(Unit(k)) == Unit(k)
    ensures forall n: nat :: RotN(Unit(k), n) == Unit(k)
  {
    var u := Unit(k);
    assert RowSum(u[0]) == k by {
      assert |u[0][1..]| == 0;
    }
    assert Column(u, 0) == [k];
    assert RowSum([k]) == k by {
      assert |[k][1..]| == 0;
    }
    assert Rot90(u) == u;
    forall n: nat ensures RotN(u, n) == u {
      RotNUnit(k, n);
    }
  }

  lemma {:induction false} RotNUnit(k: int, n: nat)
    ensures RotN(Unit(k), n) == Unit(k)
  {
    var r := Rot90(Unit(k));
    assert r[0][0] == k;
    CellsEqual(r, Unit(k));
    if n > 0 {
      RotNUnit(k, n - 1);
    }
  }

  /** Two arrays of two cells, one above the other, with the same cells. */
  lemma TwoCells(a: Blocks, b: Blocks)
    requires HasShape(a, 2, 1) && HasShape(b, 2, 1)
    requires a[0][0] == b[0][0] && a[1][0] == b[1][0]
    ensures a == b
  {
    CellsEqual(a, b);
  }

  /** Storing the same piece again under its fingerprint changes nothing. */
  lemma {:induction false} FillSame(p: Piece, s: seq<Piece>)
    requires forall i :: 0 <= i < |s| ==> s[i] == p
    ensures Fill([Entry(Fingerprint(p), p)], s) == [Entry(Fingerprint(p), p)]
  {
    if s != [] {
      FillSame(p, s[1..]);
    }
  }

  /** A one-cell piece has a single orientation. */
  lemma UnitPermutations(k: int)
    requires k != 0
    ensures ValidPiece(Piece(Unit(k))) && Permutations(Piece(Unit(k))) == [Piece(Unit(k))]
  {
    hide Rot90;
    hide FlipUD;
    hide NewPiece;
    var p := Piece(Unit(k));
    UnitFixed(k);
    OrbitTurns(p);
    OrbitFlipTurns(p);
    var o := Orbit(p);
    assert forall i :: 0 <= i < 8 ==> o[i] == p;
    assert o == [p] + o[1..];
    FillSame(p, o[1..]);
  }

  /** The two masks of a one-cell piece on a field of two cells: the piece
      in the first cell, then in the second. */
  lemma UnitMasks(k: int)
    requires k != 0
    ensures ValidPiece(Piece(Unit(k)))
    ensures PieceMasks(Piece(Unit(k)), 2, 1) == [[[k], [0]], [[0], [k]]]
  {
    hide Permutations;
    hide Place;
    var u := Unit(k);
    UnitPermutations(k);
    var m0, m1 := Place(u, 2, 1, 0, 0), Place(u, 2, 1, 1, 0);
    TwoCells(m0, [[k], [0]]);
    TwoCells(m1, [[0], [k]]);
    assert ColumnMasks(u, 2, 1, 0, 0) == [m0];
    assert ColumnMasks(u, 2, 1, 1, 0) == [m1];
    assert RowMasks(u, 2, 1, 0) == [m0, m1];
    assert MasksOf([Piece(u)], 2, 1) == OffsetMasks(u, 2, 1) + MasksOf([], 2, 1);
  }

  /** Laying mask m on field g of two cells, for non-negative cells. */
  lemma LaysTwo(g: Blocks, m: Blocks)
    requires HasShape(g, 2, 1) && HasShape(m, 2, 1)
    requires g[0][0] >= 0 && g[1][0] >= 0 && m[0][0] >= 0 && m[1][0] >= 0
    ensures Lays(g, m) <==> (g[0][0] == 0 || m[0][0] == 0) && (g[1][0] == 0 || m[1][0] == 0)
  {
    hide Fits;
    LaysIffFits(g, m);
    FitsIffDisjoint(g, m);
  }

  lemma ZerosTwo()
    ensures Zeros(2, 1) == [[0], [0]]
  {
    TwoCells(Zeros(2, 1), [[0], [0]]);
  }

  /** The cells of a sum of two-cell arrays. */
  lemma AddTwo(g: Blocks, m: Blocks)
    requires HasShape(g, 2, 1) && HasShape(m, 2, 1)
    ensures HasShape(Add(g, m), 2, 1)
    ensures Add(g, m)[0][0] == g[0][0] + m[0][0] && Add(g, m)[1][0] == g[1][0] + m[1][0]
  {
  }

  /** The count over the two masks of a piece, one after the other. */
  lemma CountOverTwo(g: Blocks, m0: Blocks, m1: Blocks, rest: seq<seq<Blocks>>)
    ensures CountOver(g, [m0, m1], rest) ==
      (if Lays(g, m0) then Count(Add(g, m0), rest) else 0) +
      (if Lays(g, m1) then Count(Add(g, m1), rest) else 0)
  {
    hide Lays;
    var ms := [m0, m1];
    assert ms[..0] == [];
    assert ms[..2] == ms;
    CountOverStep(g, ms, 0, rest);
    CountOverStep(g, ms, 1, rest);
  }

  /** The masks of two one-cell pieces, labelled j and k, on the two-cell
      field. */
  lemma PairTable(j: int, k: int)
    requires j > 0 && k > 0
    ensures AllValid([Piece(Unit(j)), Piece(Unit(k))])
    ensures MaskTable([Piece(Unit(j)), Piece(Unit(k))], 2, 1) ==
      [[[[j], [0]], [[0], [j]]], [[[k], [0]], [[0], [k]]]]
  {
    hide PieceMasks;
    UnitMasks(j);
    UnitMasks(k);
  }

  /** On the empty two-cell field two one-cell pieces have two solutions,
      whatever their labels, equal or not: the order of the pieces is
      fixed, and the first may take either cell, leaving the other to the
      second. */
  lemma PairSolutions(j: int, k: int)
    requires j > 0 && k > 0
    ensures AllValid([Piece(Unit(j)), Piece(Unit(k))])
    ensures Solutions(Zeros(2, 1), [Piece(Unit(j)), Piece(Unit(k))]) == 2
  {
    hide PieceMasks;
    hide MaskTable;
    hide Lays;
    hide CountOver;
    hide Add;
    hide Zeros;
    hide NonNeg;
    hide AllZero;
    var a0, a1, b0, b1: Blocks := [[j], [0]], [[0], [j]], [[k], [0]], [[0], [k]];
    var a, b := [a0, a1], [b0, b1];
    PairTable(j, k);
    var z := Zeros(2, 1);
    ZerosTwo();
    var none: seq<seq<Blocks>> := [];
    assert [a, b][1..] == [b] && [b][1..] == none;
    var l, r := Add(z, a0), Add(z, a1);
    AddTwo(z, a0);
    AddTwo(z, a1);
    TwoCells(l, [[j], [0]]);
    TwoCells(r, [[0], [j]]);
    LaysTwo(z, a0);
    LaysTwo(z, a1);
    LaysTwo(l, b0);
    LaysTwo(l, b1);
    LaysTwo(r, b0);
    LaysTwo(r, b1);
    CountOverTwo(l, b0, b1, none);
    CountOverTwo(r, b0, b1, none);
    CountOverTwo(z, a0, a1, [b]);
  }

  /** In particular two pieces with the same label 1 have two solutions:
      the count is of placement sequences, not of distinct pictures. */
  lemma SameLabelSolutions()
    ensures AllValid([Piece(Unit(1)), Piece(Unit(1))])
    ensures Solutions(Zeros(2, 1), [Piece(Unit(1)), Piece(Unit(1))]) == 2
  {
    hide Solutions;
    PairSolutions(1, 1);
  }

  /** The field of two cells holding 1 and 2. */
  function TwoLabels(): Blocks {
    [[1], [2]]
  }

  /** Its labels, largest first, are 2 and 1. */
  lemma TwoLabelsSorted()
    ensures IsRect(TwoLabels()) && NonNeg(TwoLabels())
    ensures SortedLabels(TwoLabels()) == [2, 1]
  {
    var g := TwoLabels();
    assert g[0][0] == 1 && g[1][0] == 2;
    assert ValueSet(g) == {1, 2};
    assert GridMax(g) == 2 && GridMin(g) == 1;
    assert LabelsDown(g, 0, 1) == [];
    assert LabelsDown(g, 1, 1) == [1];
  }

  /** A mask of one cell in two trims to that cell. */
  lemma TrimOneOfTwo(k: int, first: bool)
    requires k != 0
    ensures var m := if first then [[k], [0]] else [[0], [k]];
      IsRect(m) && Trimmed(m) == Unit(k)
  {
    var u := Unit(k);
    assert RowSum([k]) == k by {
      assert [k][1..] == [];
    }
    assert RowSum([0]) == 0 by {
      assert [0][1..] == [];
    }
    assert Column(u, 0) == [k];
    var m: Blocks := if first then [[k], [0]] else [[0], [k]];
    assert m[1..][1..] == [];
    assert Sum(m[1..]) == RowSum(m[1]);
    assert Sum(m) == RowSum(m[0]) + RowSum(m[1]);
    if first {
      assert m[..1] == u;
      assert TrimTop(m) == m;
      assert TrimBottom(m) == u;
    } else {
      assert m[1..] == u;
      assert TrimTop(m) == u;
    }
  }

  /** So the constructor turns such a mask into the one-cell piece. */
  lemma MaskPiece(k: int, first: bool)
    requires k != 0
    ensures var m := if first then [[k], [0]] else [[0], [k]];
      IsRect(m) && NewPiece(m) == Ok(Piece(Unit(k)))
  {
    hide Trimmed;
    TrimOneOfTwo(k, first);
  }

  /** Grabbing the field gives the one-cell pieces labelled 2 and 1, in
      that order, and leaves the field empty. */
  lemma TwoCellGrab()
    ensures IsRect(TwoLabels())
    ensures Grab(TwoLabels()) == (Zeros(2, 1), Ok([Piece(Unit(2)), Piece(Unit(1))]))
  {
    hide NewPiece;
    hide Trimmed;
    hide SortedLabels;
    var g := TwoLabels();
    TwoLabelsSorted();
    GrabNonNeg(g);
    var m2, m1 := LabelMask(g, 2), LabelMask(g, 1);
    TwoCells(m2, [[0], [2]]);
    TwoCells(m1, [[1], [0]]);
    MaskPiece(2, false);
    MaskPiece(1, true);
    var (z, r) := Grab(g);
    assert r.Ok? && |r.value| == 2;
    assert r.value[0] == Piece(Unit(2)) && r.value[1] == Piece(Unit(1));
    assert r.value == [Piece(Unit(2)), Piece(Unit(1))];
    assert HasShape(z, 2, 1) && AllZero(z);
    TwoCells(z, Zeros(2, 1));
  }

  /** The whole pipeline on the two-cell field: grabbing gives two pieces
      and an empty field, and the backtracking then counts two solutions. */
  lemma TwoCellScenario()
    ensures IsRect(TwoLabels())
    ensures var (z, r) := Grab(TwoLabels());
      IsRect(z) && r.Ok? && |r.value| == 2 && AllValid(r.value) && Solutions(z, r.value) == 2
  {
    hide Grab;
    hide Solutions;
    TwoCellGrab();
    PairSolutions(2, 1);
  }
}
