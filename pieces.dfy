// Board dimensions, the seven piece templates and the 90-degree mask rotation
// of the falling-block game engine (tetris.js).

module Pieces {

  /** Board width and height in cells. */
  const COLS: int := 10
  const ROWS: int := 20

  /** A piece mask: rows of 0/1 cells, indexed mask[y][x]. */
  type Mask = seq<seq<int>>

  /** Index of a piece type: the value getRandomPiece would draw. */
  type PieceIndex = i: int | 0 <= i < 7

  /** The rotation-0 templates, in the order of the piece types. */
  const PIECES: seq<Mask> := [
    [[1, 1, 1, 1]],
    [[1, 1], [1, 1]],
    [[1, 1, 1], [0, 1, 0]],
    [[1, 1, 1], [1, 0, 0]],
    [[1, 1, 1], [0, 0, 1]],
    [[1, 1, 0], [0, 1, 1]],
    [[0, 1, 1], [1, 1, 0]]
  ]

  /** Width of a mask: the length of its first row (shape[0].length). */
  function Width(m: Mask): nat {
    if |m| == 0 then 0 else |m[0]|
  }

  predicate Rectangular(m: Mask) {
    forall y :: 0 <= y < |m| ==> |m[y]| == Width(m)
  }

  /** Cell (y, x) of the mask exists and is filled. */
  predicate Filled(m: Mask, y: int, x: int) {
    0 <= y < |m| && 0 <= x < |m[y]| && m[y][x] != 0
  }

  /** A usable mask: a non-empty rectangle with at least one filled cell. */
  ghost predicate MaskOk(m: Mask) {
    && |m| >= 1
    && Width(m) >= 1
    && Rectangular(m)
    && exists y, x :: Filled(m, y, x)
  }

  /** Every template is a usable mask at most 4 wide and 2 high. */
  lemma TemplatesOk(i: PieceIndex)
    ensures MaskOk(PIECES[i])
    ensures 1 <= Width(PIECES[i]) <= 4 && 1 <= |PIECES[i]| <= 2
  {
    assert Filled(PIECES[i], 0, 1);
  }

  /** Number of filled cells of a row. */
  function RowCount(row: seq<int>): nat {
    if row == [] then 0
    else RowCount(row[..|row| - 1]) + (if row[|row| - 1] != 0 then 1 else 0)
  }

  /** Number of filled cells of a mask. */
  function MaskCount(m: Mask): nat {
    if m == [] then 0 else RowCount(m[0]) + MaskCount(m[1..])
  }

  /** The mask turned by 90 degrees, taking the first w columns of m: column x of m,
      read bottom to top, becomes row x of the result. */
  function Turn(m: Mask, w: nat): (r: Mask)
    requires forall y :: 0 <= y < |m| ==> |m[y]| >= w
    ensures |r| == w && forall x :: 0 <= x < w ==> |r[x]| == |m|
  {
    seq(w, x requires 0 <= x < w =>
      seq(|m|, k requires 0 <= k < |m| => m[|m| - 1 - k][x]))
  }

  /** The mask that rotate() computes: rotated[x][h-1-y] = shape[y][x]. */
  function Rotation(m: Mask): (r: Mask)
    requires Rectangular(m)
    ensures |r| == Width(m) && Rectangular(r)
    ensures |r| > 0 ==> Width(r) == |m|
  {
    Turn(m, Width(m))
  }

  /** Where each cell of the mask lands after a rotation. */
  lemma RotationMoves(m: Mask, y: int, x: int)
    requires Rectangular(m) && 0 <= y < |m| && 0 <= x < Width(m)
    ensures 0 <= x < |Rotation(m)| && 0 <= |m| - 1 - y < |Rotation(m)[x]|
    ensures Rotation(m)[x][|m| - 1 - y] == m[y][x]
  {
  }

  /** rotate() as the source writes it: a zero-filled width-by-height array
      whose cells are assigned one by one from the old shape. */
  method ComputeRotation(shape: Mask) returns (rotated: Mask)
    requires Rectangular(shape)
    ensures rotated == Rotation(shape)
  {
    var h, w := |shape|, Width(shape);
    rotated := seq(w, _ => seq(h, _ => 0));
    var y := 0;
    while y < h
      invariant 0 <= y <= h
      invariant |rotated| == w && forall i :: 0 <= i < w ==> |rotated[i]| == h
      invariant forall i, k :: 0 <= i < w && 0 <= k < h ==>
        rotated[i][k] == if h - 1 - k < y then shape[h - 1 - k][i] else 0
    {
      var x := 0;
      while x < |shape[y]|
        invariant 0 <= x <= w
        invariant |rotated| == w && forall i :: 0 <= i < w ==> |rotated[i]| == h
        invariant forall i, k :: 0 <= i < w && 0 <= k < h ==>
          rotated[i][k] == if h - 1 - k < y || (h - 1 - k == y && i < x) then shape[h - 1 - k][i] else 0
      {
        rotated := rotated[x := rotated[x][h - 1 - y := shape[y][x]]];
        x := x + 1;
      }
      y := y + 1;
    }
    assert forall i :: 0 <= i < w ==> rotated[i] == Rotation(shape)[i];
  }

  /** Rotation keeps a mask usable, and turns its dimensions around. */
  lemma RotationOk(m: Mask)
    requires MaskOk(m)
    ensures MaskOk(Rotation(m))
    ensures |Rotation(m)| == Width(m) && Width(Rotation(m)) == |m|
  {
    var y, x :| Filled(m, y, x);
    RotationMoves(m, y, x);
    assert Filled(Rotation(m), x, |m| - 1 - y);
  }

  lemma {:induction false} RowCountFront(row: seq<int>)
    requires row != []
    ensures RowCount(row) == (if row[0] != 0 then 1 else 0) + RowCount(row[1..])
  {
    if |row| > 1 {
      assert row[1..][..|row[1..]| - 1] == row[..|row| - 1][1..];
      RowCountFront(row[..|row| - 1]);
    } else {
      assert row[..|row| - 1] == [] && row[1..] == [];
    }
  }

  /** Appending one cell to every row of a mask adds that column's filled cells. */
  lemma {:induction false} AppendColumnCount(a: Mask, col: seq<int>, c: Mask)
    requires |a| == |col| == |c|
    requires forall i :: 0 <= i < |c| ==> c[i] == a[i] + [col[i]]
    ensures MaskCount(c) == MaskCount(a) + RowCount(col)
  {
    if c != [] {
      AppendColumnCount(a[1..], col[1..], c[1..]);
      assert c[0][..|c[0]| - 1] == a[0];
      RowCountFront(col);
    }
  }

  lemma {:induction false} EmptyRowsCount(m: Mask)
    requires forall i :: 0 <= i < |m| ==> m[i] == []
    ensures MaskCount(m) == 0
  {
    if m != [] {
      EmptyRowsCount(m[1..]);
    }
  }

  lemma {:induction false} TurnCount(m: Mask, w: nat)
    requires forall y :: 0 <= y < |m| ==> |m[y]| == w
    ensures MaskCount(Turn(m, w)) == MaskCount(m)
  {
    if m == [] {
      EmptyRowsCount(Turn(m, w));
    } else {
      var rest := m[1..];
      TurnCount(rest, w);
      var col := seq(w, x requires 0 <= x < w => m[0][x]);
      assert col == m[0];
      forall x | 0 <= x < w
        ensures Turn(m, w)[x] == Turn(rest, w)[x] + [col[x]]
      {
      }
      AppendColumnCount(Turn(rest, w), col, Turn(m, w));
    }
  }

  /** A rotation keeps the number of filled cells. */
  lemma RotationKeepsCount(m: Mask)
    requires Rectangular(m)
    ensures MaskCount(Rotation(m)) == MaskCount(m)
  {
    TurnCount(m, Width(m));
  }

  /** Two rotations turn the mask upside down and mirror it. */
  lemma HalfTurn(m: Mask)
    requires |m| >= 1 && Width(m) >= 1 && Rectangular(m)
    ensures |Rotation(Rotation(m))| == |m| && Rectangular(Rotation(Rotation(m)))
    ensures Width(Rotation(Rotation(m))) == Width(m)
    ensures forall y, x :: 0 <= y < |m| && 0 <= x < Width(m) ==>
      Rotation(Rotation(m))[y][x] == m[|m| - 1 - y][Width(m) - 1 - x]
  {
  }

  /** Four rotations give back the original mask. */
  lemma FullTurn(m: Mask)
    requires |m| >= 1 && Width(m) >= 1 && Rectangular(m)
    ensures Rotation(Rotation(Rotation(Rotation(m)))) == m
  {
    var h := Rotation(Rotation(m));
    HalfTurn(m);
    HalfTurn(h);
    var f := Rotation(Rotation(h));
    assert forall y :: 0 <= y < |m| ==> f[y] == m[y];
  }
}
