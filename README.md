# puzzlegen `generate.py` in Dafny

A model of the puzzle generator in `generate.py`. The generator:

- grows labelled regions on a rectangular field;
- cuts each region out as a `Piece`;
- counts, by exhaustive backtracking, the ways to lay all pieces back on the empty field.

Arrays are `seq<seq<int>>` indexed `g[x][y]`. Axis 0 is x (the width) and axis 1 is y (the height), as numpy holds them.

| module (file) | models |
|---|---|
| `Grids` (grids.dfy) | numpy helpers: `zeros`, `sum`, `amax`, `amin`, element-wise `+ - *`, and the `pm_fits` / `free_block_exists` tests |
| `Trim` (trim.dfy) | `Piece.trim`: the four `while` loops as functions and as a method with loops, plus what trimming keeps |
| `Pieces` (pieces.dfy) | the `Piece` constructor (trim, then 'Piece too big') and `hash` (the 64-bit fingerprint, with its loop) |
| `Symmetry` (symmetry.dfy) | `np.rot90`, `np.flipud`, `rotated`, `flipped`, and `permutations` with its fingerprint-keyed dictionary in insertion order |
| `Placements` (placements.dfy) | `piece_masks`: x outer, y inner, one field-sized mask per orientation and in-bounds offset |
| `Labels` (labels.dfy) | the label arithmetic of `grab_pieces`: sorted labels, `floor_divide` masks, and the sequence of states and pieces it produces |
| `Fields` (fields.dfy) | `class Field` over an `array2<int>`: `put_pm`, `take_pm`, `pm_fits`, `free_block_exists`, `get_free_block_xy`, the seeding loop and one growth step of `generate_puzzle`, and `grab_pieces` |
| `Solver` (solver.dfy) | `class Puzzle`: `put_pieces` (apply, recurse, undo) and `find_solutions`, specified by a count of completions |
| `Solvable` (solvable.dfy) | the guarantee the generator relies on: pieces grabbed from a labelled field can always be laid back, so `put_pieces` finds at least one solution |
| `Scenario` (scenario.dfy) | a worked two-cell field: grab, then count |

## Modelling choices

**Randomness.** `random.randint` in `get_free_block_xy` and `random.choice` in the growth step become nondeterministic choices (`:|`). The free cell is any zero cell. The label is any entry of the neighbour list.

**Piece values.** A `Piece` is a value (`datatype Piece`). `trim` runs only inside the constructor and rebinds `self.blocks` to slices, so the loops work on a local array (`Trim.Trim`). `Field` and `Puzzle` change state in place, so they are classes: the field is an `array2<int>`, and `num_solutions` is a field of `Puzzle`.

**Labels, not occupancy bits.**
- `grab_pieces` builds the mask `floor_divide(blocks, k) * k`, which holds k (not 1) on label-k cells.
- It is the label mask only because larger labels were already removed (`Labels.FloorMaskIsLabelMask`, `Labels.GrabFromIsRefGrab`).
- Pieces therefore carry their label values, not 0/1, and the solver works on those values. Only `hash` reduces a piece to occupancy bits.

**Trim uses sums.** `trim` cuts a border line when its `np.sum` is zero. The model uses the same sum, not "the line is empty". The two agree on the non-negative arrays the program builds. With negative cells they differ, so the trimming lemmas assume `NonNeg`.

**Errors.**
- `Result`/`Error` model the two `RuntimeError`s: `PieceTooBig` and `NoFreeBlock`.
- Seeding more pieces than there are free cells fails with `NoFreeBlock` from `get_free_block_xy`, only after every free cell has been used up (`Fields.Field.PlaceSeeds`). The code has no separate error for the piece count.

**Counting solutions.**
- `Solver.Solutions(g, ps)` is the number of completions. It sums over the masks of the first piece that fit, recursively, and is 1 when no piece is left.
- `put_pieces` is proved to add exactly that number to the counter and to leave the field as it found it.
- `put_pieces` keeps the order of the pieces fixed, and the first piece may take any cell its masks allow. So on the 2×1 field two one-cell pieces give two solutions, whatever their labels, equal or not (`Scenario.PairSolutions`, `Scenario.SameLabelSolutions`, `Scenario.TwoCellScenario`).

## Model

| member | source | states |
|---|---|---|
| Grids.Zeros | generate.py:69 | `np.zeros((w, h))`: a w by h array, every cell 0 |
| Grids.GridMax | generate.py:154 | `np.amax`: no cell exceeds the result, and some cell equals it |
| Grids.GridMin | generate.py:157 | `np.amin`: no cell is below the result, and some cell equals it |
| Grids.Sum | generate.py:22 | `np.sum` of the whole array: the sum of every cell, row by row |
| Grids.Add | generate.py:147-148 | `self.blocks += piece_mask`: the cell-by-cell sum of two arrays of one shape |
| Grids.Sub | generate.py:150-151 | `self.blocks -= piece_mask`: the cell-by-cell difference of two arrays of one shape |
| Grids.Mul | generate.py:154 | `self.blocks * piece_mask`: the cell-by-cell product of two arrays of one shape |
| Grids.Fits | generate.py:153-154 | `pm_fits`: the largest cell of the product is 0; `Grids.FitsIffDisjoint` and `Grids.DisjointFits` say when that holds |
| Grids.HasFree | generate.py:156-157 | `free_block_exists`: the smallest cell is 0; `Grids.HasFreeIffZeroCell` says when that holds |
| Grids.AddThenSub | generate.py:147-151 | `take_pm` after `put_pm` of the same mask gives back the original array |
| Grids.FitsIffDisjoint | generate.py:153-154 | on non-negative arrays, `not amax(a * b)` holds exactly when no cell is nonzero in both |
| Grids.DisjointFits | generate.py:153-154 | whatever the signs, arrays with no common nonzero cell fit |
| Grids.HasFreeIffZeroCell | generate.py:156-157 | on a non-negative array, `amin == 0` exactly when some cell is 0 |
| Trim.TrimTop | generate.py:25-26 | the first loop keeps the sum and the height, never adds rows, and stops at a first row with nonzero sum |
| Trim.TrimBottom | generate.py:27-28 | the second loop keeps the sum and the height, never adds rows, and stops at a last row with nonzero sum |
| Trim.DropFirstCol | generate.py:30 | `blocks[:,1:]`: every row without its first cell |
| Trim.DropLastCol | generate.py:32 | `blocks[:,:-1]`: every row without its last cell |
| Trim.TrimLeft | generate.py:29-30 | the third loop keeps the sum and the width, never adds columns, and stops at a first column with nonzero sum |
| Trim.TrimRight | generate.py:31-32 | the fourth loop keeps the sum and the width, never adds columns, and stops at a last column with nonzero sum |
| Trim.Trimmed | generate.py:21-32 | `trim` yields a rectangle no wider and no higher than its input |
| Trim.CutTop | generate.py:25-26 | the first `while` loop, run on a local array, ends with `TrimTop` of its input |
| Trim.CutBottom | generate.py:27-28 | the second `while` loop ends with `TrimBottom` of its input |
| Trim.CutLeft | generate.py:29-30 | the third `while` loop ends with `TrimLeft` of its input |
| Trim.CutRight | generate.py:31-32 | the fourth `while` loop ends with `TrimRight` of its input |
| Trim.Trim | generate.py:21-32 | the early return on a zero sum followed by the four loops computes `Trimmed` |
| Trim.TopWindow | generate.py:25-26 | on a non-negative array, the rows the first loop removes hold only zeros |
| Trim.BottomWindow | generate.py:27-28 | on a non-negative array, the rows the second loop removes hold only zeros |
| Trim.LeftWindow | generate.py:29-30 | on a non-negative array, the columns the third loop removes hold only zeros |
| Trim.RightWindow | generate.py:31-32 | on a non-negative array, the columns the fourth loop removes hold only zeros |
| Trim.TrimmedWindow | generate.py:21-32 | on a non-negative array with a nonzero cell, the result is the input's cells at some offset with zeros all around, and every border line of the result has a nonzero sum |
| Trim.TrimAllZero | generate.py:22-23 | an array without a nonzero cell comes back unchanged |
| Trim.TrimKeepsCells | generate.py:21-32 | on a non-negative array, `trim` keeps exactly the original cells, translated: everything it cuts away is zero |
| Trim.TrimUsesBorders | generate.py:21-32 | on a non-negative array with a nonzero cell, the result has a nonzero cell in its first and last row and its first and last column |
| Trim.BordersOccupied | generate.py:22-32 | a border line with a nonzero sum holds a nonzero cell |
| Trim.TrimmedFixpoint | generate.py:21-32 | an empty or border-tight shape is a fixed point of `trim` |
| Trim.TrimmedIsTrimmed | generate.py:21-32 | on a non-negative array, the result is empty or border-tight |
| Trim.TrimIdempotent | generate.py:21-32 | on a non-negative array, trimming twice equals trimming once |
| Pieces.NewPiece | generate.py:6-10 | the constructor fails only with 'Piece too big'; on success the piece is a rectangle of at most 8 by 8; an input of at most 8 by 8 never fails |
| Pieces.MakePiece | generate.py:6-10 | the constructor run with the trimming loops gives `NewPiece` |
| Pieces.NewPieceTrimmed | generate.py:6-8 | a piece built from a non-negative array is empty or border-tight |
| Pieces.NewPieceOfTrimmed | generate.py:6-10 | a border-tight array of at most 8 by 8 becomes a piece unchanged |
| Pieces.Box | generate.py:35-36 | the 8 by 8 box the piece is written into |
| Pieces.BoxBits | generate.py:38-39 | `box.flat` read as 64 occupancy bits |
| Pieces.Fingerprint | generate.py:34-40 | the value `hash` returns: the 64 occupancy bits of the 8 by 8 box read as a binary number, first cell most significant; bounded by `Pieces.FingerprintBound`, and equal exactly for equal shapes by `Pieces.FingerprintOccupancy` and `Pieces.FingerprintDeterminesShape` |
| Pieces.Hash | generate.py:34-40 | for a piece that fits the 8 by 8 box, the shift-and-or loop over the 64 cells computes the fingerprint, first cell most significant |
| Pieces.BitsValue | generate.py:37-39 | the accumulation that shifts `hsh` left by one and ors in each bit: the string read as a binary number, first bit most significant |
| Pieces.BitsValueBound | generate.py:37-39 | n shifted-in bits give a value below 2^n |
| Pieces.FingerprintBound | generate.py:34-40 | the hash is below 2^64 |
| Pieces.BitsValueInjective | generate.py:37-39 | bit strings of one length with one value are equal |
| Pieces.FingerprintOccupancy | generate.py:34-40 | the hash depends only on which cells are nonzero |
| Pieces.BoxesAgree | generate.py:34-40 | equal hashes mean the same nonzero cells in the 8 by 8 box |
| Pieces.FingerprintDeterminesShape | generate.py:34-40 | two nonempty trimmed pieces with equal hashes have the same width, the same height and the same nonzero cells |
| Symmetry.Rot90 | generate.py:43 | `np.rot90` swaps width and height |
| Symmetry.FlipUD | generate.py:46 | `np.flipud` keeps width and height |
| Symmetry.Rot180 | generate.py:43 | two quarter turns send cell (x, y) to (W-1-x, H-1-y) |
| Symmetry.Rot360 | generate.py:43 | four quarter turns give back the identical array |
| Symmetry.FlipTwice | generate.py:46 | two flips give back the identical array |
| Symmetry.Rot90Trimmed | generate.py:42-43 | a quarter turn of an empty or border-tight array is again one |
| Symmetry.FlipTrimmed | generate.py:45-46 | so is a flip |
| Symmetry.Rotated | generate.py:42-43 | `rotated` never raises 'Piece too big' on a piece, and its result is no wider than the piece is high and no higher than it is wide |
| Symmetry.Flipped | generate.py:45-46 | `flipped` never raises 'Piece too big' on a piece, and its result is no larger than the piece |
| Symmetry.RotatedTrimmed | generate.py:42-43 | on a trimmed piece, `rotated` is exactly the quarter turn |
| Symmetry.FlippedTrimmed | generate.py:45-46 | on a trimmed piece, `flipped` is exactly the flip |
| Symmetry.Turns | generate.py:52-54 | n successive calls of `rotated`, each on the result of the one before, give n valid pieces |
| Symmetry.Orbit | generate.py:48-55 | the loops of `permutations` produce 8 valid pieces |
| Symmetry.TurnsTrimmed | generate.py:52-53 | on a trimmed piece, the i-th turn is the array turned i+1 times and is trimmed |
| Symmetry.RotNShift | generate.py:53 | turning i+1 times is turning once and then i times |
| Symmetry.OrbitSplit | generate.py:48-55 | for a trimmed piece: the copy is the piece, and the flip is taken of the piece turned four times, which is the piece itself |
| Symmetry.OrbitTurns | generate.py:49-54 | the first four images are the 1 to 4 quarter turns; the fourth is the piece |
| Symmetry.OrbitFlipTurns | generate.py:51-55 | the last four images are the 1 to 4 quarter turns of the flip |
| Symmetry.Put | generate.py:54 | `perms[key] = piece` on an insertion-ordered dictionary: keys stay distinct, the key set gains key, the new item is present, every other item was there before under another key, and the length grows by one exactly for a new key |
| Symmetry.PutPlaces | generate.py:54 | the order `perms.values()` follows: an old key keeps its index and takes the new piece, every other item keeps its index, and a new key is appended last |
| Symmetry.EntriesCons | generate.py:54 | a dictionary is its first item and the rest, and no later item repeats the first key |
| Symmetry.PutConsistent | generate.py:54 | storing a piece under its own hash keeps every piece stored under its own hash |
| Symmetry.Fill | generate.py:50-54 | the inner assignment `perms[piece.hash()] = piece` run over the images in order, starting from the given dictionary |
| Symmetry.FillFacts | generate.py:50-54 | the filled dictionary is consistent, no larger than the pieces fed to it, and holds the hash of each |
| Symmetry.Values | generate.py:56 | `perms.values()` lists the stored pieces in order |
| Symmetry.FilledValues | generate.py:50-56 | between 1 and n values for n nonempty inputs, pairwise distinct hashes, each one of the inputs |
| Symmetry.FilledCovers | generate.py:50-56 | every input's hash is the hash of some value |
| Symmetry.Permutations | generate.py:48-56 | `perms.values()` after storing the eight images under their hashes; `Symmetry.PermutationsFacts` and `Symmetry.PermutationsOfTrimmed` state what it holds |
| Symmetry.PermutationsFacts | generate.py:48-56 | `permutations` returns 1 to 8 valid pieces with pairwise distinct hashes, each one of the eight images |
| Symmetry.OrbitMember | generate.py:48-55 | each image of a trimmed piece is a rotation of it or of its flip, and is trimmed |
| Symmetry.PermutationsOfTrimmed | generate.py:48-56 | each returned orientation of a trimmed piece is a rotation of it or of its flip, and is trimmed |
| Symmetry.PermutationsKeepOriginal | generate.py:48-56 | for a trimmed piece, one returned orientation has the piece's own hash |
| Placements.Place | generate.py:62-63 | the orientation written at (x, y) into a field-sized array of zeros: field shape, the orientation at that offset, zeros elsewhere |
| Placements.ColumnMasks | generate.py:61-64 | the inner `for y` loop from y on: one placement per offset while the orientation still fits vertically |
| Placements.RowMasks | generate.py:60-64 | the outer `for x` loop from x on: the inner loop's masks for each column while the orientation still fits horizontally |
| Placements.OffsetMasks | generate.py:60-64 | both loops for one orientation, x outer and y inner |
| Placements.MasksOf | generate.py:59-64 | the loop over the orientations: their masks one orientation after another |
| Placements.ColumnMasksFacts | generate.py:61-64 | the inner `y` loop yields one mask per row that fits, namely the placements in column x |
| Placements.RowMasksCount | generate.py:60-64 | the outer `x` loop yields (W-w+1-x)·(H-h+1) masks from column x on |
| Placements.RowMasksMembers | generate.py:60-64 | the outer loop yields exactly the placements at in-bounds offsets from column x on |
| Placements.OffsetMasksCount | generate.py:60-64 | one orientation yields (W-w+1)·(H-h+1) masks, and none when it is wider or higher than the field |
| Placements.OffsetMasksMembers | generate.py:60-64 | a mask of one orientation is exactly a placement at an in-bounds offset |
| Placements.MasksOfMembers | generate.py:59-64 | each mask comes from one of the orientations |
| Placements.MasksOfCount | generate.py:59-64 | the masks number the sum of the orientations' placement counts |
| Placements.PieceMasks | generate.py:58-64 | the masks of each orientation of `permutations`, in order, x outer and y inner; `Placements.PieceMasksFacts` states which and how many |
| Placements.PieceMasksFacts | generate.py:58-64 | `piece_masks` yields exactly the placements of the orientations at in-bounds offsets, zero elsewhere, and their number is the sum over orientations of (W-w+1)·(H-h+1) |
| Placements.PieceMasksShape | generate.py:58-64 | every mask has the field's dimensions |
| Labels.LabelsDownFacts | generate.py:188-189 | the labels between lo and hi, strictly decreasing, exactly those present |
| Labels.LabelSet | generate.py:188 | `set(np.unique(blocks)) - set([0])`: the values on the field other than 0 |
| Labels.SortedLabels | generate.py:188-189 | the labels from the largest cell down to the smallest, skipping 0 and absent values; `Labels.SortedLabelsDescending` states that this is the sorted set |
| Labels.SortedLabelsDescending | generate.py:188-189 | `sorted(set(unique) - {0}, reverse=True)` lists every nonzero value once, largest first |
| Labels.LabelsNonZero | generate.py:188 | 0 is never among the labels |
| Labels.FloorDiv | generate.py:192 | `np.floor_divide` on integers: the quotient rounded toward minus infinity, for either sign of the divisor |
| Labels.FloorMask | generate.py:192 | the `floor_divide` mask has the field's shape |
| Labels.LabelMask | generate.py:192 | the mask of label k has the field's shape |
| Labels.FloorMaskIsLabelMask | generate.py:192 | when no cell is negative or above k, `floor_divide(blocks, k) * k` is k exactly on the cells holding k and 0 elsewhere |
| Labels.EraseStep | generate.py:192-193 | taking label k's mask out of a field with labels s already cleared clears k too |
| Labels.EraseNothing | generate.py:193 | clearing no label changes nothing |
| Labels.EraseAll | generate.py:191-193 | clearing every label of a non-negative field leaves it all zero |
| Labels.GrabFrom | generate.py:191-194 | the loop keeps the field's shape, fails only with 'Piece too big', and on success yields one piece per label |
| Labels.GrabFromIsRefGrab | generate.py:191-194 | on a non-negative field, the `floor_divide` loop equals the loop that takes each label's own cells from the original field |
| Labels.RefGrabOk | generate.py:191-194 | when every label's piece is accepted: one piece per label, from that label's mask, and every label cleared |
| Labels.RefGrabErr | generate.py:191-194 | when some label's piece is too big, the grab raises 'Piece too big' |
| Labels.Grab | generate.py:187-195 | `grab_pieces` on the field's values: the labels largest first, then the loop of `Labels.GrabFrom`; `Labels.GrabNonNeg` states its result |
| Labels.GrabNonNeg | generate.py:187-195 | on a non-negative field: one piece per distinct nonzero label, in descending order, each built from a mask equal to k exactly where the field held k, and the field ends all zero; otherwise 'Piece too big' |
| Fields.ZeroCountSet | generate.py:172 | writing a nonzero label into a free cell uses up exactly one free cell |
| Fields.ZeroCountPositive | generate.py:156-157 | the free-cell count is positive exactly when some cell is 0 |
| Fields.ZeroCountZeros | generate.py:69 | a fresh w by h field has w·h free cells |
| Fields.SeedStep | generate.py:170-172 | writing seed i+1 into a free cell keeps the earlier seeds, adds the new one and uses up one free cell |
| Fields.SeededWeaken | generate.py:170-172 | seeds labelled up to i are also seeds labelled up to any larger n |
| Fields.Neighbours | generate.py:175-183 | the four tests in the source's order, at x-1, x+1, y-1 and y+1, each appending the neighbour's label when it is inside the field and nonzero |
| Fields.NeighboursMeaning | generate.py:175-183 | the neighbour list holds exactly the nonzero labels of the orthogonally adjacent cells |
| Fields.NeighbourValue | generate.py:175-185 | a neighbour's label is already on the field |
| Fields.SetCellValues | generate.py:185 | writing v into one cell adds at most v to the values on the field |
| Fields.GrabStart | generate.py:188-190 | before the loop no piece is taken and every label is pending |
| Fields.GrabDone | generate.py:191-195 | after the loop the pieces collected are the result |
| Fields.GrabFromStep | generate.py:191-194 | one turn of the loop: take label k's mask out, then fail or append the piece |
| Fields.Field.constructor | generate.py:68-69 | `Field(width, height)`: a fresh array with every cell 0 |
| Fields.Field.PutPm | generate.py:147-148 | the field becomes field + mask |
| Fields.Field.TakePm | generate.py:150-151 | the field becomes field − mask |
| Fields.Field.PmFits | generate.py:153-154 | disjoint occupied cells always fit; on non-negative values, fitting is exactly disjointness |
| Fields.Field.SetBlock | generate.py:172 | `blocks[x, y] = v` changes that cell only |
| Fields.Field.FreeBlockExists | generate.py:156-157 | true only if some cell is free; on a non-negative field, exactly then |
| Fields.Field.GetFreeBlock | generate.py:159-166 | 'No free block' exactly when `free_block_exists` is false; otherwise an in-bounds cell that holds 0 |
| Fields.Field.PlaceSeeds | generate.py:170-172 | succeeds exactly when there are at least n free cells, and then labels 1..n are all on the field and n free cells are used; otherwise 'No free block' with no free cell left; only free cells change, to labels in 1..n |
| Fields.Field.GrowStep | generate.py:173-185 | only the chosen cell can change, and it was free; it stays free without nonzero neighbours and otherwise takes one of their labels; no new label appears |
| Fields.Field.GrabPieces | generate.py:187-195 | the loop leaves the field and returns the result that `Grab` describes on the field as it was |
| Solver.Lays | generate.py:214 | `pm_fits` on a mask of the field's shape (`Solver.LaysIffFits`) |
| Solver.Count | generate.py:207-217 | the completions `put_pieces` counts: one when no piece is left, otherwise the count over the first piece's masks |
| Solver.CountOver | generate.py:213-216 | the loop over one piece's masks: each mask that fits adds the completions from the field with that mask laid |
| Solver.Solutions | generate.py:207-217 | the count for the field and the pieces' masks on a field of that size; `Solver.Puzzle.PutPieces` adds exactly this to the counter |
| Solver.CountOverStep | generate.py:213-216 | one more mask of the first piece adds the completions through it when it fits |
| Solver.CountFirst | generate.py:207-217 | with no piece left there is exactly one completion; otherwise the count is the sum over the first piece's masks, each of field shape |
| Solver.SolutionsAdd | generate.py:215-216 | after a mask is laid, the remaining pieces are counted with masks for the same field size |
| Solver.LaysIffFits | generate.py:214 | on a mask of the field's shape, laying is exactly `pm_fits` |
| Solver.Puzzle.constructor | generate.py:199-202 | a puzzle over the field and pieces with `num_solutions` 0 |
| Solver.Puzzle.PutPieces | generate.py:207-217 | the field is restored on return, and `num_solutions` grows by exactly the number of completions: it never decreases, and it rises by 1 on an empty piece list |
| Solver.Puzzle.TryMask | generate.py:214-217 | a mask is applied only when `pm_fits` holds; the field is restored afterwards |
| Solver.Puzzle.FindSolutions | generate.py:204-205 | the counter grows by the number of ways to lay all pieces, and the field is unchanged |
| Solvable.UniformImage | generate.py:42-46 | turns and flips of a single-label shape hold only that label |
| Solvable.SameFingerprintBorders | generate.py:34-40 | a trimmed piece with the hash of a nonempty trimmed piece is nonempty |
| Solvable.OwnOrientation | generate.py:48-56 | a nonempty trimmed single-label piece is among its own `permutations` |
| Solvable.PlacedIsMask | generate.py:58-64 | an array showing an orientation at an in-bounds offset, zero elsewhere, is one of the piece's masks |
| Solvable.OwnMask | generate.py:192-194 | the mask a piece was cut from is one of that piece's masks |
| Solvable.CountOverAtLeast | generate.py:213-216 | every mask that fits contributes its completions |
| Solvable.CoverStep | generate.py:192-193 | label masks are disjoint, and adding them rebuilds the field label by label |
| Solvable.SolvableStep | generate.py:213-217 | a fitting mask of the first piece that leads to a completion gives a completion |
| Solvable.SolvableLabel | generate.py:213-217 | laying the next label's piece at its original place extends a completion |
| Solvable.SolvableFrom | generate.py:207-217 | with labels s laid, the pieces of the further labels can always be completed |
| Solvable.SortedLabelsFacts | generate.py:188-189 | the labels grabbed from a non-negative field are distinct and positive, and occur on it |
| Solvable.GrabbedSolvable | generate.py:187-217 | when `grab_pieces` succeeds on a non-negative field, the field is left empty and `put_pieces` finds at least one solution |
| Scenario.UnitPermutations | generate.py:48-56 | a one-cell piece has a single orientation |
| Scenario.UnitMasks | generate.py:58-64 | on a field of two cells it has exactly two masks, first cell then second |
| Scenario.TwoCellGrab | generate.py:187-195 | grabbing the field holding 1 and 2 gives the one-cell pieces 2 and 1 and an empty field |
| Scenario.PairSolutions | generate.py:207-217 | on the empty two-cell field two one-cell pieces with any positive labels have exactly two solutions, because the piece order is fixed and the first may take either cell |
| Scenario.SameLabelSolutions | generate.py:207-217 | two one-cell pieces with the same label 1 also have two solutions |
| Scenario.TwoCellScenario | generate.py:187-217 | grab, then count: two pieces, an empty field, two solutions |

## Left out

- Rendering: `Field.__repr__` and `render_framed` (generate.py:79-133) only lay out text.
- Printing: the `print` in `put_pieces` (generate.py:210) is output only. The model keeps the counter it reports.
- The `__main__` driver (generate.py:220-228).
- The unused helpers `put_piece_xy`, `take_piece_xy` and `piece_fits_xy` (generate.py:135-145). Nothing in the program calls them.
- The contiguity check (generate.py:11) is a TODO in the code. No lemma assumes pieces are connected.
- Fields.Field.GetFreeBlock: the resample-until-free loop (generate.py:162-166) becomes one nondeterministic pick of a free cell. Its termination is probabilistic.
- Fields.Field.GrowStep: models one pass of `while self.free_block_exists()` (generate.py:173-185). The outer loop ends only with probability 1. Hence "after generation every cell is labelled" is not stated.
- `random.choice` (generate.py:185) is any entry of the neighbour list. Its uniform distribution is not modelled.
- numpy `int8`: cells are unbounded integers. The `int8` wrap-around of labels and of the product in `pm_fits` is not modelled.
- Fields.Field.constructor: requires both sides positive. numpy would build an empty field and fail only later, in `np.amin`/`np.amax`. `Field.Valid` holds that fact for every method.
- Pieces.NewPiece: requires a rectangle with at least one cell. An empty array passed to `Piece` is not modelled.
- Fields.Field.PlaceSeeds: requires a non-negative field. The program seeds a fresh field of zeros.
- Trim.TrimIdempotent: stated for non-negative arrays only. With negative cells a line can sum to zero while holding nonzero cells. Trim.TrimKeepsCells, Trim.TrimUsesBorders, Trim.TrimmedIsTrimmed and Labels.GrabNonNeg carry the same restriction.
- Grids.FitsIffDisjoint: the equivalence is stated for non-negative arrays only. With negative cells a product can be negative on an overlap.
- Solver.Lays: adds a shape test to `pm_fits` and is false on a mask of another shape, where numpy either raises or broadcasts. Every mask `piece_masks` yields has the field's shape (`Placements.PieceMasksShape`), so no reachable behaviour is lost.
- The `width` and `height` properties (generate.py:13-19, 71-77) are `Grids.Width` and `Grids.Height`. No separate members model them.
