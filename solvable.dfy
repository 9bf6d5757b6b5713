/** A field partitioned by labels yields pieces the backtracking can lay
    back: each piece, in its own orientation and at the offset it was cut
    from, is one of its masks, and these masks fill the field without
    overlap. */
module Solvable {
  import opened Grids
  import opened Trim
  import opened Pieces
  import opened Symmetry
  import opened Placements
  import opened Labels
  import opened Solver

  /** Every cell of b is 0 or k: the shape of a single label. */
  predicate Uniform(b: Blocks, k: int) {
    forall x, y :: 0 <= x < |b| && 0 <= y < |b[x]| ==> b[x][y] == 0 || b[x][y] == k
  }

  lemma UniformRot90(b: Blocks, k: int)
    requires IsRect(b) && Uniform(b, k)
    ensures Uniform(Rot90(b), k)
  {
    var r := Rot90(b);
    forall i, j | 0 <= i < |r| && 0 <= j < |r[i]| ensures r[i][j] == 0 || r[i][j] == k {
      assert r[i][j] == b[j][Height(b) - 1 - i];
    }
  }

  lemma UniformFlip(b: Blocks, k: int)
    requires IsRect(b) && Uniform(b, k)
    ensures Uniform(FlipUD(b), k)
  {
    var r := FlipUD(b);
    forall i, j | 0 <= i < |r| && 0 <= j < |r[i]| ensures r[i][j] == 0 || r[i][j] == k {
      assert r[i] == b[|b| - 1 - i];
    }
  }

  lemma {:induction false} UniformRotN(b: Blocks, n: nat, k: int)
    requires IsRect(b) && Uniform(b, k)
    ensures Uniform(RotN(b, n), k)
  {
    if n > 0 {
      UniformRotN(b, n - 1, k);
      UniformRot90(RotN(b, n - 1), k);
    }
  }

  /** Rotating and flipping only move cells, so an image of a single-label
      shape holds the same label. */
  lemma UniformImage(p: Piece, b: Blocks, k: int)
    requires IsRect(p.blocks) && Uniform(p.blocks, k) && IsImage(p, b)
    ensures Uniform(b, k)
  {
    var n :| 1 <= n <= 4 && (b == RotN(p.blocks, n) || b == RotN(FlipUD(p.blocks), n));
    if b == RotN(p.blocks, n) {
      UniformRotN(p.blocks, n, k);
    } else {
      UniformFlip(p.blocks, k);
      UniformRotN(FlipUD(p.blocks), n, k);
    }
  }

  /** An array is fixed by a window on it and its shape. */
  lemma WindowUnique(a: Blocks, b: Blocks, t: Blocks, x0: nat, y0: nat)
    requires SameShape(a, b) && Window(a, t, x0, y0) && Window(b, t, x0, y0)
    ensures a == b
  {
    forall x, y | 0 <= x < |a| && 0 <= y < |a[x]| ensures a[x][y] == b[x][y] {
      if x0 <= x < x0 + Width(t) && y0 <= y < y0 + Height(t) {
        assert t[x - x0][y - y0] == a[x][y];
      }
    }
    CellsEqual(a, b);
  }

  /** A trimmed piece with the fingerprint of a nonempty one is nonempty,
      so every border line of it is used. */
  lemma SameFingerprintBorders(p: Piece, q: Piece)
    requires ValidPiece(p) && Borders(p.blocks) && IsTrimmed(q.blocks)
    requires Fingerprint(q) == Fingerprint(p)
    ensures Borders(q.blocks)
  {
    var a, b := p.blocks, q.blocks;
    BordersOccupied(a);
    var y :| 0 <= y < |a[0]| && a[0][y] != 0;
    BoxesAgree(p, q);
    assert Box(a)[0][y] != 0;
    assert Box(b)[0][y] != 0;
    assert b[0][y] != 0;
  }

  /** Two single-label shapes with the same occupancy are equal. */
  lemma UniformOccupancy(a: Blocks, b: Blocks, k: int)
    requires SameOccupancy(a, b) && Uniform(a, k) && Uniform(b, k)
    ensures a == b
  {
    CellsEqual(a, b);
  }

  /** A trimmed nonempty single-label piece is among its own permutations:
      the orientation with its own fingerprint has the same occupancy and
      the same label, so it is the piece itself. */
  lemma OwnOrientation(p: Piece, k: int)
    requires ValidPiece(p) && Borders(p.blocks) && Uniform(p.blocks, k)
    ensures p in Permutations(p)
  {
    assert IsTrimmed(p.blocks);
    PermutationsKeepOriginal(p);
    var q :| q in Permutations(p) && Fingerprint(q) == Fingerprint(p);
    PermutationsOfTrimmed(p);
    PermutationsFacts(p);
    SameFingerprintBorders(p, q);
    FingerprintDeterminesShape(p, q);
    UniformImage(p, q.blocks, k);
    UniformOccupancy(p.blocks, q.blocks, k);
  }

  /** The cells of a window are cells of the array. */
  lemma WindowUniform(m: Blocks, t: Blocks, x0: nat, y0: nat, k: int)
    requires Window(m, t, x0, y0) && Uniform(m, k)
    ensures Uniform(t, k)
  {
    forall x, y | 0 <= x < |t| && 0 <= y < |t[x]| ensures t[x][y] == 0 || t[x][y] == k {
      assert t[x][y] == m[x0 + x][y0 + y];
    }
  }

  /** An array that shows an orientation of p at an in-bounds offset and
      nothing else is one of p's masks. */
  lemma PlacedIsMask(p: Piece, o: Piece, m: Blocks, w: nat, h: nat, x0: nat, y0: nat)
    requires ValidPiece(p) && o in Permutations(p)
    requires HasShape(m, w, h) && Window(m, o.blocks, x0, y0)
    ensures m in PieceMasks(p, w, h)
  {
    hide PieceMasks;
    hide Permutations;
    var placed := Place(o.blocks, w, h, x0, y0);
    WindowUnique(placed, m, o.blocks, x0, y0);
    PieceMasksFacts(p, w, h);
  }

  /** The mask of a label whose piece is accepted is one of that piece's
      masks: the piece's own orientation placed where it was cut from. */
  lemma OwnMask(m: Blocks, w: nat, h: nat, k: int)
    requires HasShape(m, w, h) && IsRect(m) && k > 0 && Uniform(m, k) && !AllZero(m)
    requires NewPiece(m).Ok?
    ensures m in PieceMasks(NewPiece(m).value, w, h)
  {
    var p := NewPiece(m).value;
    assert NonNeg(m);
    var x0, y0 := TrimmedWindow(m);
    assert p.blocks == Trimmed(m);
    WindowUniform(m, p.blocks, x0, y0, k);
    OwnOrientation(p, k);
    PlacedIsMask(p, p, m, w, h, x0, y0);
  }

  /** Each mask of the first piece that fits adds its completions. */
  lemma {:induction false} CountOverAtLeast(g: Blocks, ms: seq<Blocks>, rest: seq<seq<Blocks>>, m: Blocks)
    requires m in ms && Lays(g, m)
    ensures CountOver(g, ms, rest) >= Count(Add(g, m), rest)
  {
    var n := |ms| - 1;
    if ms[n] != m {
      assert m in ms[..n] by {
        var i :| 0 <= i < |ms| && ms[i] == m;
        assert ms[..n][i] == m;
      }
      CountOverAtLeast(g, ms[..n], rest, m);
    }
  }

  /** What `grab_pieces` gives on a non-negative field when every piece is
      accepted: piece i is built from the mask of the i-th largest label. */
  predicate GrabbedPieces(g: Blocks, ks: seq<int>, ps: seq<Piece>)
    requires IsRect(g)
  {
    |ps| == |ks| && forall i :: 0 <= i < |ks| ==> NewPiece(LabelMask(g, ks[i])) == Ok(ps[i])
  }

  lemma GrabbedValid(g: Blocks, ks: seq<int>, ps: seq<Piece>)
    requires IsRect(g) && GrabbedPieces(g, ks, ps)
    ensures AllValid(ps)
  {
    forall i | 0 <= i < |ps| ensures ValidPiece(ps[i]) {
      assert NewPiece(LabelMask(g, ks[i])).Ok?;
    }
  }

  /** Laying the mask of a further label on the labels laid so far. */
  lemma CoverStep(g: Blocks, s: set<int>, k: int)
    requires IsRect(g) && k !in s
    ensures var c, m := Covered(g, s), LabelMask(g, k);
      SameShape(c, m) && Disjoint(c, m) && Add(c, m) == Covered(g, s + {k})
  {
    CellsEqual(Add(Covered(g, s), LabelMask(g, k)), Covered(g, s + {k}));
  }

  /** The mask of a label that occurs holds that label and something. */
  lemma LabelMaskShape(g: Blocks, k: int)
    requires k > 0 && k in LabelSet(g)
    ensures Uniform(LabelMask(g, k), k) && NonNeg(LabelMask(g, k)) && !AllZero(LabelMask(g, k))
  {
    var m := LabelMask(g, k);
    assert k in ValueSet(g);
    var x, y :| 0 <= x < |g| && 0 <= y < |g[x]| && g[x][y] == k;
    assert m[x][y] == k;
  }

  /** A mask of the first piece that fits on c and leads to a completion
      gives a completion from c. */
  lemma SolvableStep(c: Blocks, m: Blocks, p: Piece, rest: seq<Piece>)
    requires IsRect(c) && AllValid(rest) && ValidPiece(p)
    requires m in PieceMasks(p, Width(c), Height(c)) && SameShape(c, m) && Disjoint(c, m)
    requires Count(Add(c, m), MaskTable(rest, Width(c), Height(c))) >= 1
    ensures AllValid([p] + rest) && Count(c, MaskTable([p] + rest, Width(c), Height(c))) >= 1
  {
    hide PieceMasks;
    hide MaskTable;
    var ps := [p] + rest;
    assert ps[0] == p && ps[1..] == rest;
    CountFirst(c, ps, Width(c), Height(c));
    DisjointFits(c, m);
    LaysIffFits(c, m);
    CountOverAtLeast(c, PieceMasks(p, Width(c), Height(c)), MaskTable(rest, Width(c), Height(c)), m);
  }

  /** Laying label k on top of the labels s. */
  lemma SolvableLabel(g: Blocks, s: set<int>, k: int, p: Piece, rest: seq<Piece>)
    requires IsRect(g) && AllValid(rest) && k > 0 && k in LabelSet(g) && k !in s
    requires NewPiece(LabelMask(g, k)) == Ok(p)
    requires Count(Covered(g, s + {k}), MaskTable(rest, Width(g), Height(g))) >= 1
    ensures AllValid([p] + rest) && Count(Covered(g, s), MaskTable([p] + rest, Width(g), Height(g))) >= 1
  {
    hide PieceMasks;
    hide MaskTable;
    hide NewPiece;
    var m := LabelMask(g, k);
    CoverStep(g, s, k);
    LabelMaskShape(g, k);
    OwnMask(m, Width(g), Height(g), k);
    SolvableStep(Covered(g, s), m, p, rest);
  }

  /** The distinct new labels a grab walks, with their pieces. */
  predicate FreshLabels(g: Blocks, s: set<int>, ks: seq<int>) {
    (forall i, i' :: 0 <= i < i' < |ks| ==> ks[i] != ks[i']) &&
    (forall i :: 0 <= i < |ks| ==> ks[i] > 0 && ks[i] in LabelSet(g) && ks[i] !in s)
  }

  lemma GrabbedTail(g: Blocks, s: set<int>, ks: seq<int>, ps: seq<Piece>)
    requires IsRect(g) && AllValid(ps) && GrabbedPieces(g, ks, ps) && FreshLabels(g, s, ks) && ks != []
    ensures AllValid(ps[1..]) && GrabbedPieces(g, ks[1..], ps[1..]) && FreshLabels(g, s + {ks[0]}, ks[1..])
    ensures ks[0] > 0 && ks[0] in LabelSet(g) && ks[0] !in s && NewPiece(LabelMask(g, ks[0])) == Ok(ps[0])
  {
    assert forall i :: 0 <= i < |ks| - 1 ==> ks[1..][i] == ks[i + 1] && ps[1..][i] == ps[i + 1];
  }

  /** With the labels s laid, the pieces of the further distinct labels
      ks can always be completed. */
  lemma {:induction false} SolvableFrom(g: Blocks, s: set<int>, ks: seq<int>, ps: seq<Piece>)
    requires IsRect(g) && AllValid(ps) && GrabbedPieces(g, ks, ps) && FreshLabels(g, s, ks)
    ensures Count(Covered(g, s), MaskTable(ps, Width(g), Height(g))) >= 1
    decreases |ks|
  {
    hide PieceMasks;
    hide MaskTable;
    hide NewPiece;
    CountFirst(Covered(g, s), ps, Width(g), Height(g));
    if ks != [] {
      GrabbedTail(g, s, ks, ps);
      SolvableFrom(g, s + {ks[0]}, ks[1..], ps[1..]);
      assert ps == [ps[0]] + ps[1..];
      SolvableLabel(g, s, ks[0], ps[0], ps[1..]);
    }
  }

  /** The labels `grab_pieces` walks on a non-negative field are distinct,
      positive labels of the field. */
  lemma SortedLabelsFacts(g: Blocks)
    requires IsRect(g) && NonNeg(g)
    ensures FreshLabels(g, {}, SortedLabels(g))
  {
    var ks := SortedLabels(g);
    SortedLabelsDescending(g);
    forall i | 0 <= i < |ks| ensures ks[i] > 0 && ks[i] in LabelSet(g) {
      assert ks[i] in ks;
      var x, y :| 0 <= x < |g| && 0 <= y < |g[x]| && g[x][y] == ks[i];
    }
  }

  /** Solvability of a grabbed field: when `grab_pieces` succeeds on a
      non-negative field, the field it leaves is empty and `put_pieces` on
      it finds at least one solution, namely every piece back where it was
      cut from. */
  lemma GrabbedSolvable(g: Blocks)
    requires IsRect(g) && NonNeg(g)
    ensures var (z, r) := Grab(g);
      r.Ok? ==> IsRect(z) && AllZero(z) && AllValid(r.value) && Solutions(z, r.value) >= 1
  {
    hide PieceMasks;
    hide MaskTable;
    var (z, r) := Grab(g);
    var ks := SortedLabels(g);
    GrabNonNeg(g);
    if r.Ok? {
      var ps := r.value;
      assert GrabbedPieces(g, ks, ps);
      GrabbedValid(g, ks, ps);
      SortedLabelsFacts(g);
      SolvableFrom(g, {}, ks, ps);
      CellsEqual(z, Covered(g, {}));
    }
  }
}
