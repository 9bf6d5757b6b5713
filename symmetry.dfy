/** The symmetries of a piece: quarter turns (`numpy.rot90`), upside-down
    flips (`numpy.flipud`), and the set of distinct orientations that
    `permutations` collects in a dictionary keyed by fingerprint. */
module Symmetry {
  import opened Grids
  import opened Trim
  import opened Pieces

  /** `numpy.rot90`: r[i][j] == b[j][H - 1 - i], width and height swap. */
  function Rot90(b: Blocks): (r: Blocks)
    requires IsRect(b)
    ensures IsRect(r) && Width(r) == Height(b) && Height(r) == Width(b)
  {
    var w, h := Width(b), Height(b);
    seq(h, i requires 0 <= i < h => seq(w, j requires 0 <= j < w => b[j][h - 1 - i]))
  }

  /** `numpy.flipud`: the rows (x values) in reverse order. */
  function FlipUD(b: Blocks): (r: Blocks)
    requires IsRect(b)
    ensures IsRect(r) && Width(r) == Width(b) && Height(r) == Height(b)
  {
    seq(|b|, i requires 0 <= i < |b| => b[|b| - 1 - i])
  }

  /** n quarter turns. */
  function RotN(b: Blocks, n: nat): (r: Blocks)
    requires IsRect(b)
    ensures IsRect(r)
  {
    if n == 0 then b else Rot90(RotN(b, n - 1))
  }

  /** Two quarter turns send cell (x, y) to (W - 1 - x, H - 1 - y). */
  lemma Rot180(b: Blocks)
    requires IsRect(b)
    ensures var r := Rot90(Rot90(b));
      HasShape(r, Width(b), Height(b)) &&
      forall x, y :: 0 <= x < Width(b) && 0 <= y < Height(b) ==>
        r[x][y] == b[Width(b) - 1 - x][Height(b) - 1 - y]
  {
  }

  /** Four quarter turns give back the same array. */
  lemma Rot360(b: Blocks)
    requires IsRect(b)
    ensures Rot90(Rot90(Rot90(Rot90(b)))) == b
  {
    var h := Rot90(Rot90(b));
    Rot180(b);
    Rot180(h);
    CellsEqual(Rot90(Rot90(h)), b);
  }

  /** Flipping twice gives back the same array. */
  lemma FlipTwice(b: Blocks)
    requires IsRect(b)
    ensures FlipUD(FlipUD(b)) == b
  {
  }

  /** A quarter turn of a trimmed shape is trimmed: its border lines are the
      original's border lines, two of them read backwards. */
  lemma Rot90Trimmed(b: Blocks)
    requires IsTrimmed(b)
    ensures IsTrimmed(Rot90(b))
  {
    var r := Rot90(b);
    var w, h := Width(b), Height(b);
    if AllZero(b) {
      assert AllZero(r);
    } else {
      assert r[0] == Column(b, h - 1);
      assert r[|r| - 1] == Column(b, 0);
      RowSumReversed(b[0], Column(r, 0));
      RowSumReversed(b[w - 1], Column(r, w - 1));
    }
  }

  /** A flip of a trimmed shape is trimmed. */
  lemma FlipTrimmed(b: Blocks)
    requires IsTrimmed(b)
    ensures IsTrimmed(FlipUD(b))
  {
    var r := FlipUD(b);
    var h := Height(b);
    if AllZero(b) {
      assert AllZero(r);
    } else {
      RowSumReversed(Column(b, 0), Column(r, 0));
      RowSumReversed(Column(b, h - 1), Column(r, h - 1));
    }
  }

  /** `rotated`. Neither it nor `flipped` can raise 'Piece too big' on a
      piece: trimming never makes an array larger. */
  function Rotated(p: Piece): (r: Result<Piece>)
    requires ValidPiece(p)
    ensures r.Ok? && ValidPiece(r.value)
    ensures Width(r.value.blocks) <= Height(p.blocks) && Height(r.value.blocks) <= Width(p.blocks)
  {
    NewPiece(Rot90(p.blocks))
  }

  /** `flipped`. */
  function Flipped(p: Piece): (r: Result<Piece>)
    requires ValidPiece(p)
    ensures r.Ok? && ValidPiece(r.value)
    ensures Width(r.value.blocks) <= Width(p.blocks) && Height(r.value.blocks) <= Height(p.blocks)
  {
    NewPiece(FlipUD(p.blocks))
  }

  /** On a trimmed piece, `rotated` is exactly a quarter turn. */
  lemma RotatedTrimmed(p: Piece)
    requires ValidPiece(p) && IsTrimmed(p.blocks)
    ensures Rotated(p) == Ok(Piece(Rot90(p.blocks)))
    ensures IsTrimmed(Rot90(p.blocks))
  {
    Rot90Trimmed(p.blocks);
    NewPieceOfTrimmed(Rot90(p.blocks));
  }

  /** On a trimmed piece, `flipped` is exactly a flip. */
  lemma FlippedTrimmed(p: Piece)
    requires ValidPiece(p) && IsTrimmed(p.blocks)
    ensures Flipped(p) == Ok(Piece(FlipUD(p.blocks)))
    ensures IsTrimmed(FlipUD(p.blocks))
  {
    FlipTrimmed(p.blocks);
    NewPieceOfTrimmed(FlipUD(p.blocks));
  }

  // ---------------------------------------------------------- orientations

  /** The pieces produced by n successive calls of `rotated`. */
  function Turns(p: Piece, n: nat): (s: seq<Piece>)
    requires ValidPiece(p)
    ensures |s| == n && forall i :: 0 <= i < n ==> ValidPiece(s[i])
    decreases n
  {
    if n == 0 then [] else
      var q := Rotated(p).value;
      [q] + Turns(q, n - 1)
  }

  /** The eight pieces `permutations` stores, in order: a fresh copy of the
      piece turned four times, then its flip turned four times. */
  function Orbit(p: Piece): (s: seq<Piece>)
    requires ValidPiece(p)
    ensures |s| == 8 && forall i :: 0 <= i < 8 ==> ValidPiece(s[i])
  {
    var start := NewPiece(p.blocks).value;
    var first := Turns(start, 4);
    first + Turns(Flipped(first[3]).value, 4)
  }

  /** On a trimmed piece, the i-th turn is the array turned i + 1 times. */
  lemma {:induction false} TurnsTrimmed(p: Piece, n: nat)
    requires ValidPiece(p) && IsTrimmed(p.blocks)
    ensures forall i :: 0 <= i < n ==>
      Turns(p, n)[i].blocks == RotN(p.blocks, i + 1) && IsTrimmed(Turns(p, n)[i].blocks)
    decreases n
  {
    hide Rotated;
    hide NewPiece;
    hide Trimmed;
    hide Rot90;
    if n > 0 {
      RotatedTrimmed(p);
      var q := Rotated(p).value;
      TurnsTrimmed(q, n - 1);
      forall i | 0 <= i < n
        ensures Turns(p, n)[i].blocks == RotN(p.blocks, i + 1)
      {
        if i > 0 {
          RotNShift(p.blocks, i);
        }
      }
    }
  }

  /** Turning i + 1 times is turning once and then i times. */
  lemma {:induction false} RotNShift(b: Blocks, i: nat)
    requires IsRect(b)
    ensures RotN(Rot90(b), i) == RotN(b, i + 1)
  {
    if i > 0 {
      RotNShift(b, i - 1);
    }
  }

  /** Four quarter turns, counted with RotN. */
  lemma RotN4(b: Blocks)
    requires IsRect(b)
    ensures RotN(b, 4) == b
  {
    Rot360(b);
    var r1 := Rot90(b);
    assert RotN(b, 1) == r1;
    var r2 := Rot90(r1);
    assert RotN(b, 2) == r2;
    var r3 := Rot90(r2);
    assert RotN(b, 3) == r3;
  }

  /** For a trimmed piece the fresh copy is the piece itself and the flip is
      taken of the piece turned four times, which is the piece again. */
  lemma OrbitSplit(p: Piece)
    requires ValidPiece(p) && IsTrimmed(p.blocks)
    ensures Orbit(p) == Turns(p, 4) + Turns(Piece(FlipUD(p.blocks)), 4)
  {
    hide Rotated;
    hide Flipped;
    hide Trimmed;
    hide Rot90;
    hide FlipUD;
    NewPieceOfTrimmed(p.blocks);
    TurnsTrimmed(p, 4);
    RotN4(p.blocks);
    assert Turns(p, 4)[3] == p;
    FlippedTrimmed(p);
  }

  /** The orbit of a trimmed piece begins with its four quarter turns; the
      fourth is the piece itself. */
  lemma OrbitTurns(p: Piece)
    requires ValidPiece(p) && IsTrimmed(p.blocks)
    ensures forall i :: 0 <= i < 4 ==>
      Orbit(p)[i].blocks == RotN(p.blocks, i + 1) && IsTrimmed(Orbit(p)[i].blocks)
    ensures Orbit(p)[3] == p
  {
    hide Orbit;
    hide Turns;
    hide Rotated;
    hide Flipped;
    hide NewPiece;
    hide Trimmed;
    hide Rot90;
    OrbitSplit(p);
    TurnsTrimmed(p, 4);
    RotN4(p.blocks);
  }

  /** It ends with the four quarter turns of the piece's flip. */
  lemma OrbitFlipTurns(p: Piece)
    requires ValidPiece(p) && IsTrimmed(p.blocks)
    ensures forall i :: 4 <= i < 8 ==>
      Orbit(p)[i].blocks == RotN(FlipUD(p.blocks), i - 3) && IsTrimmed(Orbit(p)[i].blocks)
  {
    hide Orbit;
    hide Turns;
    hide Rotated;
    hide Flipped;
    hide NewPiece;
    hide Trimmed;
    hide Rot90;
    hide FlipUD;
    OrbitSplit(p);
    var f := Piece(FlipUD(p.blocks));
    FlippedTrimmed(p);
    TurnsTrimmed(f, 4);
    var o, second := Orbit(p), Turns(f, 4);
    forall i | 4 <= i < 8
      ensures o[i].blocks == RotN(f.blocks, i - 3) && IsTrimmed(o[i].blocks)
    {
      assert o[i] == second[i - 4];
    }
  }

  // ----------------------------------------------------- the dictionary

  /** One dictionary item: a fingerprint and the piece stored under it. */
  datatype Entry = Entry(key: nat, piece: Piece)

  function Keys(d: seq<Entry>): set<nat> {
    set e | e in d :: e.key
  }

  /** No key occurs twice, as in any dictionary. */
  predicate DistinctKeys(d: seq<Entry>) {
    forall i, j :: 0 <= i < j < |d| ==> d[i].key != d[j].key
  }

  /** Keys are distinct and each piece is stored under its own fingerprint. */
  predicate Consistent(d: seq<Entry>) {
    DistinctKeys(d) && forall e :: e in d ==> e.key == Fingerprint(e.piece)
  }

  /** `d[key] = piece` on a dictionary kept in insertion order: a key already
      present keeps its place and gets the new piece, a new key goes last. */
  function Put(d: seq<Entry>, key: nat, piece: Piece): (r: seq<Entry>)
    requires DistinctKeys(d)
    ensures DistinctKeys(r)
    ensures Keys(r) == Keys(d) + {key}
    ensures Entry(key, piece) in r
    ensures forall e :: e in r ==> e == Entry(key, piece) || (e in d && e.key != key)
    ensures |r| == if key in Keys(d) then |d| else |d| + 1
  {
    if d == [] then [Entry(key, piece)]
    else
      EntriesCons(d);
      if d[0].key == key then [Entry(key, piece)] + d[1..]
      else [d[0]] + Put(d[1..], key, piece)
  }

  /** Where `d[key] = piece` leaves each item: every old item stays at its
      index, the one under key taking the new piece, and a new key goes
      after all of them. */
  lemma {:induction false} PutPlaces(d: seq<Entry>, key: nat, piece: Piece)
    requires DistinctKeys(d)
    ensures var r := Put(d, key, piece);
      (key !in Keys(d) ==> r == d + [Entry(key, piece)]) &&
      forall i :: 0 <= i < |d| ==>
        r[i] == (if d[i].key == key then Entry(key, piece) else d[i])
  {
    hide Keys;
    hide DistinctKeys;
    if d != [] {
      EntriesCons(d);
      if d[0].key != key {
        PutPlaces(d[1..], key, piece);
        var r, t := Put(d, key, piece), Put(d[1..], key, piece);
        assert r == [d[0]] + t;
        forall i | 1 <= i < |d|
          ensures r[i] == (if d[i].key == key then Entry(key, piece) else d[i])
        {
          assert r[i] == t[i - 1] && d[i] == d[1..][i - 1];
        }
        if key !in Keys(d) {
          assert d == [d[0]] + d[1..];
        }
      }
    }
  }

  /** A nonempty dictionary is its first item and the rest, and no later
      item shares the first key. */
  lemma EntriesCons(d: seq<Entry>)
    requires DistinctKeys(d) && d != []
    ensures Keys(d) == {d[0].key} + Keys(d[1..])
    ensures DistinctKeys(d[1..]) && forall e :: e in d[1..] ==> e.key != d[0].key
  {
    assert d == [d[0]] + d[1..];
    forall e | e in d[1..] ensures e.key != d[0].key {
      var j :| 0 <= j < |d[1..]| && d[1..][j] == e;
      assert d[j + 1] == e;
    }
  }

  /** Storing a piece under its own fingerprint keeps the dictionary
      consistent. */
  lemma {:induction false} PutConsistent(d: seq<Entry>, piece: Piece)
    requires Consistent(d)
    ensures Consistent(Put(d, Fingerprint(piece), piece))
  {
    var key := Fingerprint(piece);
    if d != [] && d[0].key != key {
      PutConsistent(d[1..], piece);
      var r := Put(d, key, piece);
      assert r == [d[0]] + Put(d[1..], key, piece);
      forall i, j | 0 <= i < j < |r| ensures r[i].key != r[j].key {
        if i == 0 {
          assert r[j] in Put(d[1..], key, piece);
        }
      }
    }
  }

  /** The loop of `permutations`: store every piece of s under its
      fingerprint. */
  function Fill(d: seq<Entry>, s: seq<Piece>): seq<Entry>
    requires DistinctKeys(d)
    decreases s
  {
    if s == [] then d else Fill(Put(d, Fingerprint(s[0]), s[0]), s[1..])
  }

  lemma {:induction false} FillFacts(d: seq<Entry>, s: seq<Piece>)
    requires Consistent(d)
    ensures var r := Fill(d, s);
      Consistent(r) &&
      |d| <= |r| <= |d| + |s| &&
      (s != [] ==> |r| >= 1) &&
      (forall e :: e in r ==> e in d || e.piece in s) &&
      (forall q :: q in s ==> Fingerprint(q) in Keys(r))
      && Keys(d) <= Keys(r)
    decreases s
  {
    if s != [] {
      var d' := Put(d, Fingerprint(s[0]), s[0]);
      PutConsistent(d, s[0]);
      FillFacts(d', s[1..]);
      assert s == [s[0]] + s[1..];
    }
  }

  function Values(d: seq<Entry>): (r: seq<Piece>)
    ensures |r| == |d| && forall i :: 0 <= i < |d| ==> r[i] == d[i].piece
  {
    seq(|d|, i requires 0 <= i < |d| => d[i].piece)
  }

  /** The values of a dictionary filled from s: no more than s holds, at
      least one when s is nonempty, with distinct fingerprints, all drawn
      from s. */
  lemma FilledValues(s: seq<Piece>)
    ensures var vs := Values(Fill([], s));
      (s != [] ==> 1 <= |vs|) && |vs| <= |s| &&
      (forall i, j :: 0 <= i < j < |vs| ==> Fingerprint(vs[i]) != Fingerprint(vs[j])) &&
      (forall v :: v in vs ==> v in s)
  {
    var d := Fill([], s);
    FillFacts([], s);
    var vs := Values(d);
    forall v | v in vs ensures v in s {
      var i :| 0 <= i < |vs| && vs[i] == v;
      assert d[i] in d;
    }
    forall i, j | 0 <= i < j < |vs| ensures Fingerprint(vs[i]) != Fingerprint(vs[j]) {
      assert d[i] in d && d[j] in d;
    }
  }

  /** Every piece of s has its fingerprint among the values. */
  lemma FilledCovers(s: seq<Piece>, q: Piece)
    requires q in s
    ensures exists v :: v in Values(Fill([], s)) && Fingerprint(v) == Fingerprint(q)
  {
    var d := Fill([], s);
    FillFacts([], s);
    var e :| e in d && e.key == Fingerprint(q);
    var i :| 0 <= i < |d| && d[i] == e;
    assert Values(d)[i] == e.piece;
  }

  /** `permutations`: the distinct orientations, one per fingerprint, in the
      order their fingerprints first appeared. */
  function Permutations(p: Piece): seq<Piece>
    requires ValidPiece(p)
  {
    Values(Fill([], Orbit(p)))
  }

  /** Between one and eight orientations, with pairwise distinct
      fingerprints, each of them one of the eight images. */
  lemma PermutationsFacts(p: Piece)
    requires ValidPiece(p)
    ensures var ps := Permutations(p);
      1 <= |ps| <= 8 &&
      (forall i, j :: 0 <= i < j < |ps| ==> Fingerprint(ps[i]) != Fingerprint(ps[j])) &&
      (forall q :: q in ps ==> q in Orbit(p) && ValidPiece(q))
  {
    FilledValues(Orbit(p));
  }

  /** b is one of the eight images of p: a rotation of p or of its flip. */
  predicate IsImage(p: Piece, b: Blocks)
    requires IsRect(p.blocks)
  {
    exists n :: 1 <= n <= 4 && (b == RotN(p.blocks, n) || b == RotN(FlipUD(p.blocks), n))
  }

  /** A member of a trimmed piece's orbit is a rotation of the piece or of
      its flip, and is trimmed. */
  lemma OrbitMember(p: Piece, q: Piece)
    requires ValidPiece(p) && IsTrimmed(p.blocks) && q in Orbit(p)
    ensures IsImage(p, q.blocks) && IsTrimmed(q.blocks)
  {
    var o := Orbit(p);
    var i :| 0 <= i < 8 && o[i] == q;
    if i < 4 {
      OrbitTurns(p);
      assert q.blocks == RotN(p.blocks, i + 1);
    } else {
      OrbitFlipTurns(p);
      assert q.blocks == RotN(FlipUD(p.blocks), i - 3);
    }
  }

  /** For a trimmed piece every orientation is a rotation of it or a
      rotation of its flip, and is itself trimmed. */
  lemma PermutationsOfTrimmed(p: Piece)
    requires ValidPiece(p) && IsTrimmed(p.blocks)
    ensures forall q :: q in Permutations(p) ==> IsImage(p, q.blocks) && IsTrimmed(q.blocks)
  {
    var ps := Permutations(p);
    FilledValues(Orbit(p));
    forall q | q in ps ensures IsImage(p, q.blocks) && IsTrimmed(q.blocks) {
      OrbitMember(p, q);
    }
  }

  /** For a trimmed piece one orientation has the piece's own fingerprint. */
  lemma PermutationsKeepOriginal(p: Piece)
    requires ValidPiece(p) && IsTrimmed(p.blocks)
    ensures exists q :: q in Permutations(p) && Fingerprint(q) == Fingerprint(p)
  {
    OrbitTurns(p);
    assert Orbit(p)[3] in Orbit(p);
    FilledCovers(Orbit(p), p);
  }
}
