/** Puzzle pieces: construction (trim, then the size limit), the 64-bit
    fingerprint that `hash` computes, and the errors the generator raises. */
module Pieces {
  import opened Grids
  import opened Trim

  /** The two `RuntimeError`s of the generator. */
  datatype Error = PieceTooBig | NoFreeBlock

  datatype Result<T> = Ok(value: T) | Err(error: Error)

  /** A piece is its block array; width and height are its two axes. */
  datatype Piece = Piece(blocks: Blocks)

  /** Every piece the constructor lets through: a rectangle of at most
      8 by 8 cells. */
  predicate ValidPiece(p: Piece) {
    IsRect(p.blocks) && Width(p.blocks) <= 8 && Height(p.blocks) <= 8
  }

  /** `Piece(blocks)`: trim the array, then refuse it when it is wider or
      higher than 8. */
  function NewPiece(b: Blocks): (r: Result<Piece>)
    requires IsRect(b)
    ensures r.Ok? ==> ValidPiece(r.value)
    ensures r.Err? ==> r.error == PieceTooBig
    ensures Width(b) <= 8 && Height(b) <= 8 ==> r.Ok?
  {
    var t := Trimmed(b);
    if Width(t) > 8 || Height(t) > 8 then Err(PieceTooBig) else Ok(Piece(t))
  }

  /** The constructor as the program runs it: the trimming loops, then the
      size check. */
  method MakePiece(b: Blocks) returns (r: Result<Piece>)
    requires IsRect(b)
    ensures r == NewPiece(b)
  {
    var t := Trim.Trim(b);
    if Width(t) > 8 || Height(t) > 8 {
      return Err(PieceTooBig);
    }
    return Ok(Piece(t));
  }

  /** A piece built from a non-negative array is a trimmed shape; one built
      from a trimmed shape of at most 8 by 8 keeps its array unchanged. */
  lemma NewPieceTrimmed(b: Blocks)
    requires IsRect(b) && NonNeg(b)
    ensures NewPiece(b).Ok? ==> IsTrimmed(NewPiece(b).value.blocks)
  {
    TrimmedIsTrimmed(b);
  }

  lemma NewPieceOfTrimmed(b: Blocks)
    requires IsTrimmed(b) && Width(b) <= 8 && Height(b) <= 8
    ensures NewPiece(b) == Ok(Piece(b))
  {
    TrimmedFixpoint(b);
  }

  // -------------------------------------------------------------- hashing

  /** The piece written into the top-left corner of an 8 by 8 box of zeros. */
  function Box(p: Blocks): (box: Blocks)
    ensures HasShape(box, 8, 8)
  {
    seq(8, x requires 0 <= x < 8 => seq(8, y requires 0 <= y < 8 =>
      if x < |p| && y < |p[x]| then p[x][y] else 0))
  }

  /** The box read in storage order (x outer, y inner), one bit per cell:
      set when the cell is nonzero. */
  function BoxBits(p: Blocks): (bits: seq<bool>)
    ensures |bits| == 64
  {
    var box := Box(p);
    seq(64, k requires 0 <= k < 64 => box[k / 8][k % 8] != 0)
  }

  /** The bits read as a binary number, first bit most significant. */
  function BitsValue(s: seq<bool>): nat {
    if s == [] then 0
    else 2 * BitsValue(s[..|s| - 1]) + (if s[|s| - 1] then 1 else 0)
  }

  function Pow2(n: nat): nat {
    if n == 0 then 1 else 2 * Pow2(n - 1)
  }

  /** The value `hash` returns. */
  function Fingerprint(p: Piece): nat {
    BitsValue(BoxBits(p.blocks))
  }

  /** `hash`: shift each cell's occupancy bit into the accumulator. The
      piece must fit the 8 by 8 box it is copied into. */
  method Hash(p: Piece) returns (h: nat)
    requires ValidPiece(p)
    ensures h == Fingerprint(p)
  {
    var box := Box(p.blocks);
    ghost var bits := BoxBits(p.blocks);
    h := 0;
    var k := 0;
    while k < 64
      invariant 0 <= k <= 64
      invariant h == BitsValue(bits[..k])
    {
      assert bits[..k + 1][..k] == bits[..k];
      h := 2 * h + (if box[k / 8][k % 8] != 0 then 1 else 0);
      k := k + 1;
    }
    assert bits[..64] == bits;
  }

  lemma {:induction false} BitsValueBound(s: seq<bool>)
    ensures BitsValue(s) < Pow2(|s|)
  {
    if s != [] {
      BitsValueBound(s[..|s| - 1]);
    }
  }

  lemma {:induction false} Pow2Add(a: nat, b: nat)
    ensures Pow2(a + b) == Pow2(a) * Pow2(b)
  {
    if a > 0 {
      Pow2Add(a - 1, b);
    }
  }

  /** The fingerprint fits in 64 bits. */
  lemma FingerprintBound(p: Piece)
    ensures Fingerprint(p) < 0x1_0000_0000_0000_0000
  {
    hide BoxBits;
    hide Pow2;
    BitsValueBound(BoxBits(p.blocks));
    Pow2Byte();
    Pow2Add(8, 8);
    Pow2Add(16, 16);
    Pow2Add(32, 32);
  }

  lemma Pow2Byte()
    ensures Pow2(8) == 256
  {
  }

  /** Bit strings of one length with one value are equal. */
  lemma {:induction false} BitsValueInjective(s: seq<bool>, t: seq<bool>)
    requires |s| == |t| && BitsValue(s) == BitsValue(t)
    ensures s == t
  {
    if s != [] {
      var n := |s| - 1;
      assert s[n] == t[n];
      BitsValueInjective(s[..n], t[..n]);
      assert s == s[..n] + [s[n]];
      assert t == t[..n] + [t[n]];
    }
  }

  /** Same width, same height and nonzero in the same cells. */
  predicate SameOccupancy(a: Blocks, b: Blocks) {
    SameShape(a, b) &&
    forall x, y :: 0 <= x < |a| && 0 <= y < |a[x]| ==> (a[x][y] != 0 <==> b[x][y] != 0)
  }

  /** The fingerprint depends only on which cells are nonzero. */
  lemma FingerprintOccupancy(p: Piece, q: Piece)
    requires SameOccupancy(p.blocks, q.blocks)
    ensures Fingerprint(p) == Fingerprint(q)
  {
    var bp, bq := Box(p.blocks), Box(q.blocks);
    forall x, y | 0 <= x < 8 && 0 <= y < 8
      ensures (bp[x][y] != 0) == (bq[x][y] != 0)
    {
    }
    assert BoxBits(p.blocks) == BoxBits(q.blocks);
  }

  /** Equal fingerprints mean the same occupancy inside the box. */
  lemma BoxesAgree(p: Piece, q: Piece)
    requires Fingerprint(p) == Fingerprint(q)
    ensures forall x, y :: 0 <= x < 8 && 0 <= y < 8 ==>
      (Box(p.blocks)[x][y] != 0 <==> Box(q.blocks)[x][y] != 0)
  {
    var sp, sq := BoxBits(p.blocks), BoxBits(q.blocks);
    BitsValueInjective(sp, sq);
    forall x, y | 0 <= x < 8 && 0 <= y < 8
      ensures Box(p.blocks)[x][y] != 0 <==> Box(q.blocks)[x][y] != 0
    {
      var k := x * 8 + y;
      assert k / 8 == x && k % 8 == y;
      assert sp[k] == sq[k];
    }
  }

  /** Two trimmed nonempty pieces with one fingerprint have the same width,
      the same height and the same occupied cells. */
  lemma FingerprintDeterminesShape(p: Piece, q: Piece)
    requires ValidPiece(p) && ValidPiece(q)
    requires Borders(p.blocks) && Borders(q.blocks)
    requires Fingerprint(p) == Fingerprint(q)
    ensures Width(p.blocks) == Width(q.blocks) && Height(p.blocks) == Height(q.blocks)
    ensures SameOccupancy(p.blocks, q.blocks)
  {
    BoxesAgree(p, q);
    SameWidth(p, q);
    SameWidth(q, p);
    SameHeight(p, q);
    SameHeight(q, p);
    var a, b := p.blocks, q.blocks;
    forall x, y | 0 <= x < |a| && 0 <= y < |a[x]|
      ensures a[x][y] != 0 <==> b[x][y] != 0
    {
      assert Box(a)[x][y] == a[x][y] && Box(b)[x][y] == b[x][y];
    }
  }

  lemma SameWidth(p: Piece, q: Piece)
    requires ValidPiece(p) && ValidPiece(q) && Borders(q.blocks)
    requires forall x, y :: 0 <= x < 8 && 0 <= y < 8 ==>
      (Box(p.blocks)[x][y] != 0 <==> Box(q.blocks)[x][y] != 0)
    ensures Width(q.blocks) <= Width(p.blocks)
  {
    var b := q.blocks;
    BordersOccupied(b);
    var last := b[|b| - 1];
    var y :| 0 <= y < |last| && last[y] != 0;
    assert Box(b)[|b| - 1][y] != 0;
  }

  lemma SameHeight(p: Piece, q: Piece)
    requires ValidPiece(p) && ValidPiece(q) && Borders(q.blocks)
    requires forall x, y :: 0 <= x < 8 && 0 <= y < 8 ==>
      (Box(p.blocks)[x][y] != 0 <==> Box(q.blocks)[x][y] != 0)
    ensures Height(q.blocks) <= Height(p.blocks)
  {
    var b := q.blocks;
    BordersOccupied(b);
    var col := Column(b, Height(b) - 1);
    var x :| 0 <= x < |col| && col[x] != 0;
    assert Box(b)[x][Height(b) - 1] != 0;
  }
}
