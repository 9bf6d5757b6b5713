/** The label arithmetic behind `grab_pieces`: the labels of a field in
    descending order, the `floor_divide` mask of a label, and the sequence
    of field states and pieces the grab produces. */
module Labels {
  import opened Grids
  import opened Trim
  import opened Pieces

  /** Every value some cell holds. */
  function ValueSet(g: Blocks): set<int> {
    set x, y | 0 <= x < |g| && 0 <= y < |g[x]| :: g[x][y]
  }

  /** `set(np.unique(blocks)) - set([0])` */
  function LabelSet(g: Blocks): set<int> {
    ValueSet(g) - {0}
  }

  /** r lists the elements of s, largest first, each once. */
  ghost predicate IsDescendingOf(r: seq<int>, s: set<int>) {
    (forall i, j :: 0 <= i < j < |r| ==> r[i] > r[j]) &&
    (forall k :: k in r <==> k in s)
  }

  /** The labels of g between lo and hi, largest first. */
  function LabelsDown(g: Blocks, hi: int, lo: int): seq<int>
    decreases hi - lo
  {
    if hi < lo then []
    else (if hi in LabelSet(g) then [hi] else []) + LabelsDown(g, hi - 1, lo)
  }

  /** `sorted(set(np.unique(blocks)) - set([0]), reverse=True)`: every label
      lies between the smallest and the largest cell. */
  function SortedLabels(g: Blocks): seq<int>
    requires RowsNonEmpty(g)
  {
    LabelsDown(g, GridMax(g), GridMin(g))
  }

  lemma {:induction false} LabelsDownFacts(g: Blocks, hi: int, lo: int)
    ensures var r := LabelsDown(g, hi, lo);
      (forall i, j :: 0 <= i < j < |r| ==> r[i] > r[j]) &&
      (forall k :: k in r <==> lo <= k <= hi && k in LabelSet(g))
    decreases hi - lo
  {
    if hi >= lo {
      var rest := LabelsDown(g, hi - 1, lo);
      LabelsDownFacts(g, hi - 1, lo);
      var r := LabelsDown(g, hi, lo);
      if hi in LabelSet(g) {
        forall i, j | 0 <= i < j < |r| ensures r[i] > r[j] {
          assert r[j] == rest[j - 1] && rest[j - 1] in rest;
          if i > 0 {
            assert r[i] == rest[i - 1];
          }
        }
      }
    }
  }

  /** The sorted labels list every label of the field once, largest
      first. */
  lemma SortedLabelsDescending(g: Blocks)
    requires RowsNonEmpty(g)
    ensures IsDescendingOf(SortedLabels(g), LabelSet(g))
  {
    LabelsDownFacts(g, GridMax(g), GridMin(g));
  }

  function Elems(ks: seq<int>): set<int> {
    set k | k in ks
  }

  // ---------------------------------------------------------------- masks

  /** numpy.floor_divide on integers: the quotient rounded toward minus
      infinity, for either sign of the divisor. */
  function FloorDiv(a: int, b: int): int
    requires b != 0
  {
    if b > 0 then a / b else (-a) / (-b)
  }

  /** `np.floor_divide(blocks, k) * k` */
  function FloorMask(g: Blocks, k: int): (m: Blocks)
    requires k != 0
    ensures SameShape(m, g)
    ensures IsRect(g) ==> IsRect(m)
  {
    seq(|g|, x requires 0 <= x < |g| => seq(|g[x]|, y requires 0 <= y < |g[x]| => FloorDiv(g[x][y], k) * k))
  }

  /** The cells holding k, with value k; zero everywhere else. */
  function LabelMask(g: Blocks, k: int): (m: Blocks)
    ensures SameShape(m, g)
    ensures IsRect(g) ==> IsRect(m)
  {
    seq(|g|, x requires 0 <= x < |g| => seq(|g[x]|, y requires 0 <= y < |g[x]| => if g[x][y] == k then k else 0))
  }

  /** The field with every cell whose label is in s cleared. */
  function Erase(g: Blocks, s: set<int>): (r: Blocks)
    ensures SameShape(r, g)
  {
    seq(|g|, x requires 0 <= x < |g| => seq(|g[x]|, y requires 0 <= y < |g[x]| => if g[x][y] in s then 0 else g[x][y]))
  }

  /** Only the cells whose label is in s. */
  function Covered(g: Blocks, s: set<int>): (r: Blocks)
    ensures SameShape(r, g)
  {
    seq(|g|, x requires 0 <= x < |g| => seq(|g[x]|, y requires 0 <= y < |g[x]| => if g[x][y] in s then g[x][y] else 0))
  }

  /** When no cell is negative or above k, the floor-divide mask is the
      label mask of k: every smaller value divides to 0. */
  lemma FloorMaskIsLabelMask(g: Blocks, k: int)
    requires k > 0
    requires forall x, y :: 0 <= x < |g| && 0 <= y < |g[x]| ==> 0 <= g[x][y] <= k
    ensures FloorMask(g, k) == LabelMask(g, k)
  {
    forall x, y | 0 <= x < |g| && 0 <= y < |g[x]|
      ensures FloorMask(g, k)[x][y] == LabelMask(g, k)[x][y]
    {
      if g[x][y] == k {
        assert FloorDiv(g[x][y], k) == 1;
      } else {
        assert FloorDiv(g[x][y], k) == 0;
      }
    }
    CellsEqual(FloorMask(g, k), LabelMask(g, k));
  }

  /** Taking label k's mask out of a field where s is already cleared
      clears k as well, and the label masks of a cleared field are those of
      the original. */
  lemma EraseStep(g: Blocks, s: set<int>, k: int)
    requires k !in s && k != 0
    ensures Sub(Erase(g, s), LabelMask(Erase(g, s), k)) == Erase(g, s + {k})
    ensures LabelMask(Erase(g, s), k) == LabelMask(g, k)
  {
    var e := Erase(g, s);
    CellsEqual(Sub(e, LabelMask(e, k)), Erase(g, s + {k}));
    CellsEqual(LabelMask(e, k), LabelMask(g, k));
  }

  lemma EraseNothing(g: Blocks)
    ensures Erase(g, {}) == g
  {
    CellsEqual(Erase(g, {}), g);
  }

  /** Clearing every label of a non-negative field leaves it all zero. */
  lemma EraseAll(g: Blocks, s: set<int>)
    requires NonNeg(g) && LabelSet(g) <= s
    ensures AllZero(Erase(g, s))
  {
    forall x, y | 0 <= x < |g| && 0 <= y < |g[x]| ensures Erase(g, s)[x][y] == 0 {
      assert g[x][y] in ValueSet(g);
    }
  }

  // ---------------------------------------------------------------- grab

  /** The loop of `grab_pieces` over the labels ks: take each label's
      floor-divide mask out of the field, then build a piece from it. The
      field is changed before the piece is built, so a piece that is too
      big leaves its label already cleared. */
  function GrabFrom(g: Blocks, ks: seq<int>): (r: (Blocks, Result<seq<Piece>>))
    requires IsRect(g) && forall i :: 0 <= i < |ks| ==> ks[i] != 0
    ensures HasShape(r.0, Width(g), Height(g))
    ensures r.1.Err? ==> r.1.error == PieceTooBig
    ensures r.1.Ok? ==> |r.1.value| == |ks|
    decreases |ks|
  {
    if ks == [] then (g, Ok([]))
    else
      var mask := FloorMask(g, ks[0]);
      var g' := Sub(g, mask);
      match NewPiece(mask)
      case Err(e) => (g', Err(e))
      case Ok(p) =>
        var (g'', rest) := GrabFrom(g', ks[1..]);
        (g'', if rest.Ok? then Ok([p] + rest.value) else rest)
  }

  /** `grab_pieces` on field g: its labels, largest first. */
  function Grab(g: Blocks): (r: (Blocks, Result<seq<Piece>>))
    requires IsRect(g)
  {
    LabelsNonZero(g);
    GrabFrom(g, SortedLabels(g))
  }

  lemma LabelsNonZero(g: Blocks)
    requires RowsNonEmpty(g)
    ensures forall i :: 0 <= i < |SortedLabels(g)| ==> SortedLabels(g)[i] != 0
  {
    SortedLabelsDescending(g);
    var ks := SortedLabels(g);
    forall i | 0 <= i < |ks| ensures ks[i] != 0 {
      assert ks[i] in ks;
    }
  }

  /** The grab described by labels rather than by division: label k's piece
      comes from exactly the cells that held k in the original field g0,
      and the field ends with the processed labels cleared. */
  function RefGrab(g0: Blocks, s: set<int>, ks: seq<int>): (Blocks, Result<seq<Piece>>)
    requires IsRect(g0)
    decreases |ks|
  {
    if ks == [] then (Erase(g0, s), Ok([]))
    else
      match NewPiece(LabelMask(g0, ks[0]))
      case Err(e) => (Erase(g0, s + {ks[0]}), Err(e))
      case Ok(p) =>
        var (g'', rest) := RefGrab(g0, s + {ks[0]}, ks[1..]);
        (g'', if rest.Ok? then Ok([p] + rest.value) else rest)
  }

  /** What the grab loop needs of the labels still to come: they are
      positive, strictly decreasing, none of them already cleared, and they
      include every label of g0 not yet cleared. */
  ghost predicate Pending(g0: Blocks, s: set<int>, ks: seq<int>) {
    (forall i :: 0 <= i < |ks| ==> ks[i] > 0 && ks[i] !in s) &&
    (forall i, j :: 0 <= i < j < |ks| ==> ks[i] > ks[j]) &&
    (forall k :: k in LabelSet(g0) && k !in s ==> k in ks)
  }

  /** On a non-negative field, the loop with floor-divide masks does what
      the label description says. */
  lemma {:induction false} GrabFromIsRefGrab(g0: Blocks, s: set<int>, ks: seq<int>)
    requires IsRect(g0) && NonNeg(g0) && Pending(g0, s, ks)
    ensures GrabFrom(Erase(g0, s), ks) == RefGrab(g0, s, ks)
    decreases |ks|
  {
    hide NewPiece;
    var g := Erase(g0, s);
    if ks != [] {
      var k := ks[0];
      forall x, y | 0 <= x < |g| && 0 <= y < |g[x]| ensures 0 <= g[x][y] <= k {
        if g[x][y] != 0 {
          assert g0[x][y] in ValueSet(g0);
          var i :| 0 <= i < |ks| && ks[i] == g0[x][y];
        }
      }
      FloorMaskIsLabelMask(g, k);
      EraseStep(g0, s, k);
      if NewPiece(LabelMask(g0, k)).Ok? {
        assert Pending(g0, s + {k}, ks[1..]) by {
          forall l | l in LabelSet(g0) && l !in s + {k} ensures l in ks[1..] {
            var i :| 0 <= i < |ks| && ks[i] == l;
            assert i != 0;
          }
        }
        GrabFromIsRefGrab(g0, s + {k}, ks[1..]);
      }
    }
  }

  /** The reference grab, when every label's piece fits in 8 by 8: one piece
      per label, built from that label's mask, and every listed label
      cleared. */
  lemma {:induction false} RefGrabOk(g0: Blocks, s: set<int>, ks: seq<int>)
    requires IsRect(g0)
    requires forall i :: 0 <= i < |ks| ==> NewPiece(LabelMask(g0, ks[i])).Ok?
    ensures var (g, r) := RefGrab(g0, s, ks);
      r.Ok? && |r.value| == |ks| &&
      (forall i :: 0 <= i < |ks| ==> r.value[i] == NewPiece(LabelMask(g0, ks[i])).value) &&
      g == Erase(g0, s + Elems(ks))
    decreases |ks|
  {
    hide NewPiece;
    if ks == [] {
      assert s + Elems(ks) == s;
    } else {
      RefGrabOk(g0, s + {ks[0]}, ks[1..]);
      assert s + Elems(ks) == (s + {ks[0]}) + Elems(ks[1..]);
    }
  }

  /** Some listed label's piece is too big: the reference grab fails. */
  lemma {:induction false} RefGrabErr(g0: Blocks, s: set<int>, ks: seq<int>)
    requires IsRect(g0)
    requires exists i :: 0 <= i < |ks| && NewPiece(LabelMask(g0, ks[i])).Err?
    ensures RefGrab(g0, s, ks).1 == Err(PieceTooBig)
    decreases |ks|
  {
    hide NewPiece;
    if NewPiece(LabelMask(g0, ks[0])).Ok? {
      var i :| 0 <= i < |ks| && NewPiece(LabelMask(g0, ks[i])).Err?;
      assert ks[1..][i - 1] == ks[i];
      RefGrabErr(g0, s + {ks[0]}, ks[1..]);
    }
  }

  /** `grab_pieces` on a field of non-negative labels. If every label's
      cells trim to at most 8 by 8, it returns one piece per distinct nonzero
      label, in descending label order, each built from the cells that held
      that label (with value k exactly there), and leaves the field all
      zero; otherwise it raises 'Piece too big'. */
  lemma GrabNonNeg(g: Blocks)
    requires IsRect(g) && NonNeg(g)
    ensures var ks := SortedLabels(g);
      var (g', r) := Grab(g);
      ((forall i :: 0 <= i < |ks| ==> NewPiece(LabelMask(g, ks[i])).Ok?) ==>
        r.Ok? && |r.value| == |ks| &&
        (forall i :: 0 <= i < |ks| ==> r.value[i] == NewPiece(LabelMask(g, ks[i])).value) &&
        AllZero(g')) &&
      ((exists i :: 0 <= i < |ks| && NewPiece(LabelMask(g, ks[i])).Err?) ==> r == Err(PieceTooBig))
  {
    hide NewPiece;
    hide LabelMask;
    hide FloorMask;
    hide Erase;
    hide Sub;
    hide SortedLabels;
    var ks := SortedLabels(g);
    SortedLabelsDescending(g);
    forall i | 0 <= i < |ks| ensures ks[i] > 0 {
      assert ks[i] in ks;
      var x, y :| 0 <= x < |g| && 0 <= y < |g[x]| && g[x][y] == ks[i];
    }
    EraseNothing(g);
    GrabFromIsRefGrab(g, {}, ks);
    if forall i :: 0 <= i < |ks| ==> NewPiece(LabelMask(g, ks[i])).Ok? {
      RefGrabOk(g, {}, ks);
      EraseAll(g, {} + Elems(ks));
    } else {
      RefGrabErr(g, {}, ks);
    }
  }
}
