/** `Puzzle`: exhaustive backtracking over the placements of the pieces,
    counting the ways to lay all of them on the field without overlap. */
module Solver {
  import opened Grids
  import opened Pieces
  import opened Placements
  import opened Fields

  /** Every mask has the field's shape. */
  predicate Shaped(ms: seq<Blocks>, w: nat, h: nat) {
    forall i :: 0 <= i < |ms| ==> HasShape(ms[i], w, h)
  }

  /** `piece_masks` of each piece in turn, for a field of w by h cells. */
  function MaskTable(ps: seq<Piece>, w: nat, h: nat): seq<seq<Blocks>>
    requires AllValid(ps)
  {
    seq(|ps|, k requires 0 <= k < |ps| => PieceMasks(ps[k], w, h))
  }

  /** `pm_fits`, for a mask numpy can multiply with the field: one of the
      same shape. Every mask `piece_masks` yields has that shape. */
  predicate Lays(g: Blocks, m: Blocks) {
    SameShape(g, m) && RowsNonEmpty(g) && Fits(g, m)
  }

  /** The number of ways the backtracking completes from field g when the
      pieces still to place have the masks t: one when none is left,
      otherwise the sum over the masks of the first piece that fit. */
  function Count(g: Blocks, t: seq<seq<Blocks>>): nat
    decreases |t|, 1
  {
    if t == [] then 1 else CountOver(g, t[0], t[1..])
  }

  /** The count contributed by the masks ms of one piece, the pieces after
      it having the masks rest. */
  function CountOver(g: Blocks, ms: seq<Blocks>, rest: seq<seq<Blocks>>): nat
    decreases |rest| + 1, 0, |ms|
  {
    if ms == [] then 0
    else
      var m := ms[|ms| - 1];
      CountOver(g, ms[..|ms| - 1], rest) + (if Lays(g, m) then Count(Add(g, m), rest) else 0)
  }

  /** The number of ways `put_pieces(ps)` completes from field g. */
  function Solutions(g: Blocks, ps: seq<Piece>): nat
    requires IsRect(g) && AllValid(ps)
  {
    Count(g, MaskTable(ps, Width(g), Height(g)))
  }

  /** One more mask of the first piece adds the completions through it,
      when it fits. */
  lemma CountOverStep(g: Blocks, ms: seq<Blocks>, i: nat, rest: seq<seq<Blocks>>)
    requires i < |ms|
    ensures CountOver(g, ms[..i + 1], rest) ==
      CountOver(g, ms[..i], rest) + (if Lays(g, ms[i]) then Count(Add(g, ms[i]), rest) else 0)
  {
    assert ms[..i + 1][..i] == ms[..i];
  }

  /** With no piece left there is exactly one way; with a piece left, the
      count is the sum over the masks of the first piece, each of the
      field's shape. */
  lemma CountFirst(g: Blocks, ps: seq<Piece>, w: nat, h: nat)
    requires AllValid(ps)
    ensures ps == [] ==> Count(g, MaskTable(ps, w, h)) == 1
    ensures ps != [] ==> AllValid(ps[1..]) && ValidPiece(ps[0])
    ensures ps != [] ==>
      var ms := PieceMasks(ps[0], w, h);
      Shaped(ms, w, h) && Count(g, MaskTable(ps, w, h)) == CountOver(g, ms, MaskTable(ps[1..], w, h))
  {
    hide PieceMasks;
    var t := MaskTable(ps, w, h);
    if ps != [] {
      assert t == [t[0]] + MaskTable(ps[1..], w, h);
      PieceMasksShape(ps[0], w, h);
    } else {
      assert t == [];
    }
  }

  /** The count after laying a mask of the field's shape, in terms of the
      masks for the field's shape. */
  lemma SolutionsAdd(g: Blocks, m: Blocks, ps: seq<Piece>)
    requires IsRect(g) && HasShape(m, Width(g), Height(g)) && AllValid(ps)
    ensures IsRect(Add(g, m))
    ensures Solutions(Add(g, m), ps) == Count(Add(g, m), MaskTable(ps, Width(g), Height(g)))
  {
    hide PieceMasks;
    assert Width(Add(g, m)) == Width(g) && Height(Add(g, m)) == Height(g);
  }

  /** On masks of the field's shape, laying is exactly `pm_fits`. */
  lemma LaysIffFits(g: Blocks, m: Blocks)
    requires IsRect(g) && HasShape(m, Width(g), Height(g))
    ensures SameShape(g, m) && RowsNonEmpty(g) && (Lays(g, m) <==> Fits(g, m))
  {
  }

  class Puzzle {
    const field: Field
    const pieces: seq<Piece>
    var numSolutions: nat

    /** Every piece was accepted by the `Piece` constructor. */
    predicate Valid()
      reads this
    {
      field.Valid() && AllValid(pieces)
    }

    constructor(field: Field, pieces: seq<Piece>)
      requires field.Valid() && AllValid(pieces)
      ensures Valid() && this.field == field && this.pieces == pieces && numSolutions == 0
    {
      this.field := field;
      this.pieces := pieces;
      numSolutions := 0;
    }

    /** `put_pieces`: try each mask of the first piece, in the order
        `piece_masks` yields them. The field comes back as it was and the
        counter grows by the number of completions. */
    method PutPieces(ps: seq<Piece>)
      requires field.Valid() && AllValid(ps)
      modifies this, field.blocks
      ensures field.Cells() == old(field.Cells())
      ensures numSolutions == old(numSolutions) + Solutions(old(field.Cells()), ps)
      decreases |ps|, 1
    {
      hide PieceMasks;
      hide MaskTable;
      if ps == [] {
        CountFirst(field.Cells(), ps, field.blocks.Length0, field.blocks.Length1);
        numSolutions := numSolutions + 1;
        return;
      }
      ghost var g0 := field.Cells();
      var w, h := field.blocks.Length0, field.blocks.Length1;
      CountFirst(g0, ps, w, h);
      var masks := PieceMasks(ps[0], w, h);
      ghost var rest := MaskTable(ps[1..], w, h);
      for i := 0 to |masks|
        invariant field.Cells() == g0
        invariant numSolutions == old(numSolutions) + CountOver(g0, masks[..i], rest)
      {
        CountOverStep(g0, masks, i, rest);
        LaysIffFits(g0, masks[i]);
        SolutionsAdd(g0, masks[i], ps[1..]);
        TryMask(masks[i], ps[1..]);
      }
      assert masks[..|masks|] == masks;
    }

    /** One turn of the loop of `put_pieces`: when the mask fits, lay it,
        place the remaining pieces and lift it again. */
    method TryMask(pm: Blocks, rest: seq<Piece>)
      requires field.Valid() && AllValid(rest) && HasShape(pm, field.blocks.Length0, field.blocks.Length1)
      modifies this, field.blocks
      ensures field.Cells() == old(field.Cells())
      ensures numSolutions == old(numSolutions) +
        (if Fits(old(field.Cells()), pm) then Solutions(Add(old(field.Cells()), pm), rest) else 0)
      decreases |rest| + 1, 0
    {
      hide PieceMasks;
      hide MaskTable;
      ghost var g0 := field.Cells();
      if field.PmFits(pm) {
        field.PutPm(pm);
        PutPieces(rest);
        field.TakePm(pm);
        AddThenSub(g0, pm);
      }
    }

    /** `find_solutions`: count the ways to lay all the pieces. */
    method FindSolutions()
      requires Valid()
      modifies this, field.blocks
      ensures field.Cells() == old(field.Cells())
      ensures numSolutions == old(numSolutions) + Solutions(old(field.Cells()), pieces)
    {
      PutPieces(pieces);
    }
  }
}
