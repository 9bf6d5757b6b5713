/** `piece_masks`: every placement of every orientation of a piece on a
    field of a given size, as a field-sized mask. */
module Placements {
  import opened Grids
  import opened Trim
  import opened Pieces
  import opened Symmetry

  /** `piece_mask[x:x+w, y:y+h] = blocks` on a field-sized array of zeros:
      the orientation sits at offset (x, y) and nothing is anywhere else. */
  function Place(o: Blocks, fw: nat, fh: nat, x: nat, y: nat): (m: Blocks)
    requires IsRect(o) && x + Width(o) <= fw && y + Height(o) <= fh
    ensures HasShape(m, fw, fh) && Window(m, o, x, y)
  {
    seq(fw, i requires 0 <= i < fw => seq(fh, j requires 0 <= j < fh =>
      if x <= i < x + Width(o) && y <= j < y + Height(o) then o[i - x][j - y] else 0))
  }

  /** How many values `range(n - k + 1)` takes. */
  function Span(n: nat, k: nat): nat {
    if k <= n then n - k + 1 else 0
  }

  /** The inner loop: offsets (x, y), (x, y + 1), ... while the orientation
      still fits vertically. */
  function ColumnMasks(o: Blocks, fw: nat, fh: nat, x: nat, y: nat): seq<Blocks>
    requires IsRect(o) && x + Width(o) <= fw
    decreases fh - y
  {
    if y + Height(o) > fh then []
    else [Place(o, fw, fh, x, y)] + ColumnMasks(o, fw, fh, x, y + 1)
  }

  /** The outer loop: one column of offsets for each x that still fits. */
  function RowMasks(o: Blocks, fw: nat, fh: nat, x: nat): seq<Blocks>
    requires IsRect(o)
    decreases fw - x
  {
    if x + Width(o) > fw then []
    else ColumnMasks(o, fw, fh, x, 0) + RowMasks(o, fw, fh, x + 1)
  }

  /** The masks of one orientation, x outer and y inner. */
  function OffsetMasks(o: Blocks, fw: nat, fh: nat): seq<Blocks>
    requires IsRect(o)
  {
    RowMasks(o, fw, fh, 0)
  }

  predicate AllValid(os: seq<Piece>) {
    forall i :: 0 <= i < |os| ==> ValidPiece(os[i])
  }

  /** The masks of several orientations, one after the other. */
  function MasksOf(os: seq<Piece>, fw: nat, fh: nat): seq<Blocks>
    requires AllValid(os)
  {
    if os == [] then []
    else OffsetMasks(os[0].blocks, fw, fh) + MasksOf(os[1..], fw, fh)
  }

  /** `piece_masks(field)` for a field of fw by fh cells. */
  function PieceMasks(p: Piece, fw: nat, fh: nat): seq<Blocks>
    requires ValidPiece(p)
  {
    PermutationsFacts(p);
    MasksOf(Permutations(p), fw, fh)
  }

  /** The number of masks one orientation yields. */
  function Placements(o: Blocks, fw: nat, fh: nat): nat
    requires IsRect(o)
  {
    Span(fw, Width(o)) * Span(fh, Height(o))
  }

  function TotalPlacements(os: seq<Piece>, fw: nat, fh: nat): nat
    requires AllValid(os)
  {
    if os == [] then 0
    else Placements(os[0].blocks, fw, fh) + TotalPlacements(os[1..], fw, fh)
  }

  // ------------------------------------------------------------- lemmas

  /** The inner loop yields one mask per row from y on that still fits, and
      exactly the placements at column x on those rows. */
  lemma {:induction false} ColumnMasksFacts(o: Blocks, fw: nat, fh: nat, x: nat, y: nat, m: Blocks)
    requires IsRect(o) && x + Width(o) <= fw
    ensures |ColumnMasks(o, fw, fh, x, y)| == if y + Height(o) <= fh then fh - Height(o) + 1 - y else 0
    ensures m in ColumnMasks(o, fw, fh, x, y) <==>
      exists y': nat :: y <= y' && y' + Height(o) <= fh && m == Place(o, fw, fh, x, y')
    decreases fh - y
  {
    hide Place;
    if y + Height(o) <= fh {
      ColumnMasksFacts(o, fw, fh, x, y + 1, m);
      if m == Place(o, fw, fh, x, y) {
        assert y <= y && y + Height(o) <= fh;
      }
    }
  }

  /** The outer loop from column x on yields ny masks per column that still
      fits, where ny is the number of rows that fit. */
  lemma {:induction false} RowMasksCount(o: Blocks, fw: nat, fh: nat, x: nat)
    requires IsRect(o)
    ensures |RowMasks(o, fw, fh, x)| ==
      (if x + Width(o) <= fw then fw - Width(o) + 1 - x else 0) * Span(fh, Height(o))
    decreases fw - x
  {
    hide Place;
    if x + Width(o) <= fw {
      ColumnMasksFacts(o, fw, fh, x, 0, []);
      RowMasksCount(o, fw, fh, x + 1);
      var n, ny := fw - Width(o) + 1 - x, Span(fh, Height(o));
      assert n * ny == ny + (n - 1) * ny;
    }
  }

  /** The outer loop from column x on yields exactly the placements at the
      in-bounds offsets from column x on. */
  lemma {:induction false} RowMasksMembers(o: Blocks, fw: nat, fh: nat, x: nat, m: Blocks)
    requires IsRect(o)
    ensures m in RowMasks(o, fw, fh, x) <==>
      exists x': nat, y: nat :: x <= x' && x' + Width(o) <= fw && y + Height(o) <= fh &&
        m == Place(o, fw, fh, x', y)
    decreases fw - x
  {
    hide Place;
    if x + Width(o) <= fw {
      ColumnMasksFacts(o, fw, fh, x, 0, m);
      RowMasksMembers(o, fw, fh, x + 1, m);
      if m in ColumnMasks(o, fw, fh, x, 0) {
        var y: nat :| 0 <= y && y + Height(o) <= fh && m == Place(o, fw, fh, x, y);
        assert x <= x && x + Width(o) <= fw;
      }
      if (exists x': nat, y: nat ::
            x <= x' && x' + Width(o) <= fw && y + Height(o) <= fh && m == Place(o, fw, fh, x', y))
      {
        var x': nat, y: nat :| x <= x' && x' + Width(o) <= fw && y + Height(o) <= fh &&
          m == Place(o, fw, fh, x', y);
        if x' == x {
          assert 0 <= y;
        } else {
          assert x + 1 <= x';
        }
      }
    }
  }

  /** One orientation yields (fw - w + 1) * (fh - h + 1) masks when it fits
      the field and none when it is wider or higher. */
  lemma OffsetMasksCount(o: Blocks, fw: nat, fh: nat)
    requires IsRect(o)
    ensures |OffsetMasks(o, fw, fh)| == Placements(o, fw, fh)
    ensures Width(o) > fw || Height(o) > fh ==> OffsetMasks(o, fw, fh) == []
  {
    RowMasksCount(o, fw, fh, 0);
  }

  /** A mask of one orientation is exactly a placement at an in-bounds
      offset, and every in-bounds offset gives one of the masks. */
  lemma OffsetMasksMembers(o: Blocks, fw: nat, fh: nat, m: Blocks)
    requires IsRect(o)
    ensures m in OffsetMasks(o, fw, fh) <==>
      exists x: nat, y: nat :: x + Width(o) <= fw && y + Height(o) <= fh && m == Place(o, fw, fh, x, y)
  {
    RowMasksMembers(o, fw, fh, 0, m);
  }

  /** Each mask of a sequence of orientations comes from one of them. */
  lemma {:induction false} MasksOfMembers(os: seq<Piece>, fw: nat, fh: nat, m: Blocks)
    requires AllValid(os)
    ensures m in MasksOf(os, fw, fh) <==>
      exists o :: o in os && m in OffsetMasks(o.blocks, fw, fh)
  {
    if os != [] {
      MasksOfMembers(os[1..], fw, fh, m);
      assert forall o :: o in os <==> o == os[0] || o in os[1..];
    }
  }

  /** The masks number the sum of the orientations' placements. */
  lemma {:induction false} MasksOfCount(os: seq<Piece>, fw: nat, fh: nat)
    requires AllValid(os)
    ensures |MasksOf(os, fw, fh)| == TotalPlacements(os, fw, fh)
  {
    if os != [] {
      OffsetMasksCount(os[0].blocks, fw, fh);
      MasksOfCount(os[1..], fw, fh);
    }
  }

  /** The masks of `piece_masks`: each has the field's shape, each is an
      orientation placed at an in-bounds offset with zeros elsewhere, every
      such placement occurs, and they number the sum over the orientations
      of (fw - w + 1) * (fh - h + 1). */
  lemma PieceMasksFacts(p: Piece, fw: nat, fh: nat)
    requires ValidPiece(p)
    ensures var ms, ps := PieceMasks(p, fw, fh), Permutations(p);
      AllValid(ps) &&
      |ms| == TotalPlacements(ps, fw, fh) &&
      forall m :: m in ms <==>
        exists o, x: nat, y: nat :: o in ps && x + Width(o.blocks) <= fw && y + Height(o.blocks) <= fh &&
          m == Place(o.blocks, fw, fh, x, y)
  {
    hide Permutations;
    hide Place;
    hide OffsetMasks;
    var ps := Permutations(p);
    PermutationsFacts(p);
    MasksOfCount(ps, fw, fh);
    forall m
      ensures m in MasksOf(ps, fw, fh) <==>
        exists o, x: nat, y: nat :: o in ps && x + Width(o.blocks) <= fw && y + Height(o.blocks) <= fh &&
          m == Place(o.blocks, fw, fh, x, y)
    {
      MasksOfMembers(ps, fw, fh, m);
      forall o | o in ps {
        OffsetMasksMembers(o.blocks, fw, fh, m);
      }
    }
  }

  /** Every mask has the field's shape. */
  lemma PieceMasksShape(p: Piece, fw: nat, fh: nat)
    requires ValidPiece(p)
    ensures forall m :: m in PieceMasks(p, fw, fh) ==> HasShape(m, fw, fh)
  {
    PieceMasksFacts(p, fw, fh);
  }
}
