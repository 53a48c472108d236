// The settled-cell grid of tetris.js: the collision test, writing a piece
// into the grid, and the row-removal loop of clearLines.

module Board {
  import opened Pieces

  /** The board: ROWS rows of COLS cells, 0 for empty, 1..7 for a piece type + 1. */
  type Grid = seq<seq<int>>

  /** A row number of the board. */
  type RowIndex = r: int | 0 <= r < ROWS

  const EMPTY_ROW: seq<int> := [0, 0, 0, 0, 0, 0, 0, 0, 0, 0]

  predicate Shaped(g: Grid) {
    |g| == ROWS && forall r :: 0 <= r < |g| ==> |g[r]| == COLS
  }

  predicate GridOk(g: Grid) {
    Shaped(g) && forall r, c :: 0 <= r < ROWS && 0 <= c < COLS ==> 0 <= g[r][c] <= 7
  }

  /** Absolute cell (col, row) is off the sides, below the floor, or occupied;
      rows above the board (row < 0) only meet the side walls. */
  predicate Blocked(g: Grid, col: int, row: int)
    requires Shaped(g)
  {
    col < 0 || col >= COLS || row >= ROWS || (row >= 0 && g[row][col] != 0)
  }

  /** Mask cell (y, x) is filled and, with the mask's top-left cell at (px, py),
      lands on a blocked board cell. */
  predicate HitsAt(g: Grid, m: Mask, px: int, py: int, y: int, x: int)
    requires Shaped(g) && 0 <= y < |m| && 0 <= x < |m[y]|
  {
    m[y][x] != 0 && Blocked(g, px + x, py + y)
  }

  /** The mask placed with its top-left cell at (px, py) hits something: some
      filled cell lands left or right of the walls, below the floor, or on a
      non-empty cell of a row >= 0. Cells above the top row meet only the walls. */
  predicate Collides(g: Grid, m: Mask, px: int, py: int)
    requires Shaped(g)
  {
    exists y, x | 0 <= y < |m| && 0 <= x < |m[y]| :: Filled(m, y, x) && HitsAt(g, m, px, py, y, x)
  }

  /** collision() in the source's own terms: some filled cell of the mask lands
      off either side, below the floor, or on a settled cell of a row >= 0. */
  lemma CollidesSpec(g: Grid, m: Mask, px: int, py: int)
    requires Shaped(g)
    ensures Collides(g, m, px, py) <==>
      (exists y, x :: Filled(m, y, x) &&
        (px + x < 0 || px + x >= COLS || py + y >= ROWS || (py + y >= 0 && g[py + y][px + x] != 0)))
  {
  }

  /** Every filled cell of the placement lies between the walls and above the floor. */
  ghost predicate Fits(m: Mask, px: int, py: int) {
    forall y, x :: Filled(m, y, x) ==> 0 <= px + x < COLS && py + y < ROWS
  }

  /** Board cell (c, r) is under a filled cell of the placed mask. */
  predicate Covers(m: Mask, px: int, py: int, r: int, c: int) {
    Filled(m, r - py, c - px)
  }

  /** The board after merge(): covered cells hold kind + 1, the rest is as before. */
  function Merged(g: Grid, m: Mask, kind: int, px: int, py: int): (h: Grid)
    requires Shaped(g)
    ensures Shaped(h)
  {
    seq(ROWS, r requires 0 <= r < ROWS =>
      seq(COLS, c requires 0 <= c < COLS =>
        if Covers(m, px, py, r, c) then kind + 1 else g[r][c]))
  }

  /** A placement that does not collide fits on the board. */
  lemma NoCollisionFits(g: Grid, m: Mask, px: int, py: int)
    requires Shaped(g) && !Collides(g, m, px, py)
    ensures Fits(m, px, py)
  {
    forall y, x | Filled(m, y, x)
      ensures 0 <= px + x < COLS && py + y < ROWS
    {
      assert !HitsAt(g, m, px, py, y, x);
    }
  }

  /** merge() on a non-colliding placement: every filled mask cell at row >= 0 now
      holds kind + 1, it was empty before, every other cell is unchanged, and all
      cells stay in 0..7. */
  lemma MergeWrites(g: Grid, m: Mask, kind: int, px: int, py: int)
    requires GridOk(g) && 0 <= kind < 7 && !Collides(g, m, px, py)
    ensures GridOk(Merged(g, m, kind, px, py))
    ensures forall y, x :: Filled(m, y, x) && py + y >= 0 ==>
      0 <= px + x < COLS && py + y < ROWS &&
      g[py + y][px + x] == 0 && Merged(g, m, kind, px, py)[py + y][px + x] == kind + 1
    ensures forall r, c :: 0 <= r < ROWS && 0 <= c < COLS && !Covers(m, px, py, r, c) ==>
      Merged(g, m, kind, px, py)[r][c] == g[r][c]
  {
    var h := Merged(g, m, kind, px, py);
    forall y, x | Filled(m, y, x) && py + y >= 0
      ensures 0 <= px + x < COLS && py + y < ROWS && g[py + y][px + x] == 0 && h[py + y][px + x] == kind + 1
    {
      assert !HitsAt(g, m, px, py, y, x);
      assert Covers(m, px, py, py + y, px + x);
    }
  }

  /** Array.every(cell => cell !== 0) on one row. */
  predicate RowFull(row: seq<int>) {
    forall c :: 0 <= c < |row| ==> row[c] != 0
  }

  /** Indices of the full rows among rows lo..ROWS-1, from the bottom up:
      the order in which clearLines collects them. */
  function FullRowsFrom(g: Grid, lo: int): seq<RowIndex>
    requires |g| == ROWS && 0 <= lo <= ROWS
    decreases ROWS - lo
  {
    if lo == ROWS then []
    else FullRowsFrom(g, lo + 1) + (if RowFull(g[lo]) then [lo] else [])
  }

  /** linesToClear: the full rows, scanned from the bottom row up. */
  function FullRows(g: Grid): seq<RowIndex>
    requires |g| == ROWS
  {
    FullRowsFrom(g, 0)
  }

  /** linesToClear lists every full row exactly once, bottom row first. */
  lemma FullRowsSpec(g: Grid)
    requires |g| == ROWS
    ensures forall r :: r in FullRows(g) <==> 0 <= r < ROWS && RowFull(g[r])
    ensures forall i, j :: 0 <= i < j < |FullRows(g)| ==> FullRows(g)[i] > FullRows(g)[j]
  {
    FullRowsFromSpec(g, 0);
  }

  /** FullRowsFrom lists exactly the full rows at or below lo, strictly upwards. */
  lemma {:induction false} FullRowsFromSpec(g: Grid, lo: int)
    requires |g| == ROWS && 0 <= lo <= ROWS
    ensures forall r :: r in FullRowsFrom(g, lo) <==> lo <= r < ROWS && RowFull(g[r])
    ensures forall i, j :: 0 <= i < j < |FullRowsFrom(g, lo)| ==> FullRowsFrom(g, lo)[i] > FullRowsFrom(g, lo)[j]
    decreases ROWS - lo
  {
    if lo < ROWS {
      FullRowsFromSpec(g, lo + 1);
      var above := FullRowsFrom(g, lo + 1);
      var here := if RowFull(g[lo]) then [lo] else [];
      assert FullRowsFrom(g, lo) == above + here;
      forall r
        ensures r in above + here <==> lo <= r < ROWS && RowFull(g[r])
      {
        assert r in above + here <==> r in above || r in here;
      }
      forall i, j | 0 <= i < j < |above + here|
        ensures (above + here)[i] > (above + here)[j]
      {
        if j >= |above| {
          assert above[i] in above;
          assert (above + here)[j] == lo && (above + here)[i] == above[i];
        }
      }
    }
  }

  /** The full rows at or below k come first in FullRowsFrom(g, lo); the rest are above k. */
  lemma {:induction false} FullRowsFromPrefix(g: Grid, lo: int, k: int)
    requires |g| == ROWS && 0 <= lo <= k <= ROWS
    ensures FullRowsFrom(g, k) <= FullRowsFrom(g, lo)
    ensures forall i :: |FullRowsFrom(g, k)| <= i < |FullRowsFrom(g, lo)| ==> FullRowsFrom(g, lo)[i] < k
    decreases k - lo
  {
    if lo < k {
      FullRowsFromPrefix(g, lo + 1, k);
      FullRowsFromSpec(g, lo + 1);
    }
  }

  /** clearLines finds nothing iff no row is full. */
  lemma NoFullRows(g: Grid)
    requires |g| == ROWS
    ensures FullRows(g) == [] <==> forall r :: 0 <= r < ROWS ==> !RowFull(g[r])
  {
    FullRowsSpec(g);
    if FullRows(g) != [] {
      assert FullRows(g)[0] in FullRows(g);
    }
  }

  /** One pass of the clearLines loop: board.splice(line, 1) then board.unshift(empty row). */
  function RemoveRow(g: Grid, line: int): (h: Grid)
    requires 0 <= line < |g|
    ensures |h| == |g|
  {
    [EMPTY_ROW] + g[..line] + g[line + 1..]
  }

  /** Rows above the removed one move down by one, an empty row enters at the
      top, and rows below are untouched. */
  lemma RemoveRowAt(g: Grid, line: int)
    requires 0 <= line < |g|
    ensures RemoveRow(g, line)[0] == EMPTY_ROW
    ensures forall r :: 1 <= r <= line ==> RemoveRow(g, line)[r] == g[r - 1]
    ensures forall r :: line < r < |g| ==> RemoveRow(g, line)[r] == g[r]
  {
  }

  /** The clearLines loop: each collected index in turn is spliced out of the
      board as it is at that moment, and an empty row is put on top. */
  function ClearRows(g: Grid, lines: seq<RowIndex>): (h: Grid)
    requires |g| == ROWS
    ensures |h| == ROWS
    ensures Shaped(g) ==> Shaped(h)
    ensures GridOk(g) ==> GridOk(h)
    decreases |lines|
  {
    if lines == [] then g
    else
      RemoveRowAt(g, lines[0]);
      ClearRows(RemoveRow(g, lines[0]), lines[1..])
  }

  /** Removing rows at indices below k leaves the rows from k down untouched. */
  lemma {:induction false} ClearRowsKeepsLower(g: Grid, lines: seq<RowIndex>, k: int)
    requires |g| == ROWS
    requires 0 <= k <= ROWS && forall i :: 0 <= i < |lines| ==> lines[i] < k
    ensures forall r :: k <= r < ROWS ==> ClearRows(g, lines)[r] == g[r]
    decreases |lines|
  {
    if lines != [] {
      RemoveRowAt(g, lines[0]);
      ClearRowsKeepsLower(RemoveRow(g, lines[0]), lines[1..], k);
    }
  }

  /** With no full row, clearLines leaves the board as it is. */
  lemma ClearNothing(g: Grid)
    requires Shaped(g) && forall r :: 0 <= r < ROWS ==> !RowFull(g[r])
    ensures FullRows(g) == [] && ClearRows(g, FullRows(g)) == g
  {
    NoFullRows(g);
  }

  /** The first two entries of a strictly decreasing list differ. */
  lemma FirstTwoDiffer(f: seq<int>)
    requires forall i, j :: 0 <= i < j < |f| ==> f[i] > f[j]
    ensures |f| >= 2 ==> f[0] != f[1]
  {
  }

  /** With exactly one full row y, clearLines collects just [y]. */
  lemma OnlyFullRow(g: Grid, y: int)
    requires Shaped(g) && 0 <= y < ROWS
    requires forall r :: 0 <= r < ROWS ==> (RowFull(g[r]) <==> r == y)
    ensures FullRows(g) == [y]
  {
    FullRowsSpec(g);
    var f := FullRows(g);
    assert RowFull(g[y]);
    assert y in f;
    forall i | 0 <= i < |f|
      ensures f[i] == y
    {
      assert f[i] in f;
    }
    FirstTwoDiffer(f);
    assert |f| == 1 && f[0] == y;
  }

  /** A single pass of the clearLines loop. */
  lemma ClearOneRow(g: Grid, y: int)
    requires |g| == ROWS && 0 <= y < ROWS
    ensures ClearRows(g, [y]) == RemoveRow(g, y)
  {
    assert [y][0] == y && [y][1..] == [];
    assert ClearRows(RemoveRow(g, y), []) == RemoveRow(g, y);
  }

  /** Exactly one full row y: it is removed, the rows above shift down by one,
      row 0 becomes empty, the rows below are unchanged, and no full row is left. */
  lemma ClearSingleRow(g: Grid, y: int)
    requires Shaped(g) && 0 <= y < ROWS
    requires forall r :: 0 <= r < ROWS ==> (RowFull(g[r]) <==> r == y)
    ensures FullRows(g) == [y]
    ensures ClearRows(g, [y])[0] == EMPTY_ROW
    ensures forall r :: 1 <= r <= y ==> ClearRows(g, [y])[r] == g[r - 1]
    ensures forall r :: y < r < ROWS ==> ClearRows(g, [y])[r] == g[r]
    ensures forall r :: 0 <= r < ROWS ==> !RowFull(ClearRows(g, [y])[r])
  {
    OnlyFullRow(g, y);
    ClearOneRow(g, y);
    RemoveRowAt(g, y);
    var h := RemoveRow(g, y);
    forall r | 0 <= r < ROWS
      ensures !RowFull(h[r])
    {
      if r == 0 {
        assert h[0][0] == 0;
      } else if r <= y {
        assert !RowFull(g[r - 1]);
      } else {
        assert !RowFull(g[r]);
      }
    }
  }

  /** When the two bottom rows are full, clearLines collects them first. */
  lemma BottomPairListed(g: Grid)
    requires |g| == ROWS && RowFull(g[ROWS - 1]) && RowFull(g[ROWS - 2])
    ensures |FullRows(g)| >= 2 && FullRows(g)[0] == ROWS - 1 && FullRows(g)[1] == ROWS - 2
    ensures forall i :: 2 <= i < |FullRows(g)| ==> FullRows(g)[i] < ROWS - 2
  {
    assert FullRowsFrom(g, ROWS - 1) == [ROWS - 1] by {
      assert FullRowsFrom(g, ROWS) == [];
    }
    assert FullRowsFrom(g, ROWS - 2) == [ROWS - 1, ROWS - 2];
    FullRowsFromPrefix(g, 0, ROWS - 2);
  }

  /** The indices collected before the loop go stale once a row has been removed:
      when the two bottom rows are both full, the second pass splices out the
      row above them, and the upper full row ends up on the bottom row, still full. */
  lemma BottomPairLeavesFullRow(g: Grid)
    requires Shaped(g) && RowFull(g[ROWS - 1]) && RowFull(g[ROWS - 2])
    ensures |FullRows(g)| >= 2 && FullRows(g)[..2] == [ROWS - 1, ROWS - 2]
    ensures ClearRows(g, FullRows(g))[ROWS - 1] == g[ROWS - 2]
    ensures RowFull(ClearRows(g, FullRows(g))[ROWS - 1])
  {
    var f := FullRows(g);
    BottomPairListed(g);
    var g1 := RemoveRow(g, ROWS - 1);
    RemoveRowAt(g, ROWS - 1);
    var g2 := RemoveRow(g1, ROWS - 2);
    RemoveRowAt(g1, ROWS - 2);
    assert g2[ROWS - 1] == g[ROWS - 2];
    assert ClearRows(g, f) == ClearRows(g1, f[1..]);
    assert ClearRows(g1, f[1..]) == ClearRows(g2, f[2..]) by {
      assert f[1..][0] == ROWS - 2 && f[1..][1..] == f[2..];
    }
    ClearRowsKeepsLower(g2, f[2..], ROWS - 2);
  }
}
