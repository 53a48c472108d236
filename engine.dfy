// The Tetris object of tetris.js: its fields, the board as a fixed array of
// rows updated in place, and each game-logic method proved to leave the fields
// exactly as the corresponding step of the Game model says.

module Engine {
  import opened Pieces
  import opened Board
  import opened Game

  class Tetris {
    var board: array<seq<int>>
    var current: Option<Piece>
    var next: Option<Piece>
    var pieceX: int
    var pieceY: int
    var score: int
    var lines: int
    var level: int
    var dropInterval: int
    var dropCounter: int
    var lastTime: int
    var running: bool
    var paused: bool

    /** The fields that gameplay reads and writes, as one value. */
    function Snapshot(): State
      reads this, board
    {
      State(board[..], current, next, pieceX, pieceY, score, lines, level,
            dropInterval, dropCounter, lastTime, running, paused)
    }

    /** What holds between two engine events (a key press or a frame). */
    ghost predicate Valid()
      reads this, board
    {
      Consistent(Snapshot())
    }

    /** The constructor's game fields: an empty board, no pieces, fresh
        counters, not running. */
    constructor()
      ensures Snapshot() == Initial() && Valid()
    {
      board := new seq<int>[ROWS](_ => EMPTY_ROW);
      score, lines, level := 0, 0, 1;
      dropCounter, dropInterval, lastTime := 0, 1000, 0;
      running, paused := false, false;
      current, next := None, None;
      pieceX, pieceY := 0, 0;
      new;
      assert board[..] == EmptyBoard();
    }

    /** collision(): scans the filled cells of the current mask row by row and
        reports whether one lands on a wall, below the floor or on a settled
        cell; cells above the top row meet only the walls. */
    method Collision() returns (hit: bool)
      requires current.Some? && Shaped(board[..])
      ensures hit == Collides(board[..], current.value.shape, pieceX, pieceY)
    {
      var shape := current.value.shape;
      var y := 0;
      while y < |shape|
        invariant 0 <= y <= |shape|
        invariant forall y', x' | 0 <= y' < y && 0 <= x' < |shape[y']| ::
          !HitsAt(board[..], shape, pieceX, pieceY, y', x')
      {
        var x := 0;
        while x < |shape[y]|
          invariant 0 <= x <= |shape[y]|
          invariant forall x' | 0 <= x' < x :: !HitsAt(board[..], shape, pieceX, pieceY, y, x')
        {
          if shape[y][x] != 0 {
            var boardX := pieceX + x;
            var boardY := pieceY + y;
            if boardX < 0 || boardX >= COLS || boardY >= ROWS {
              assert HitsAt(board[..], shape, pieceX, pieceY, y, x);
              return true;
            }
            if boardY >= 0 && board[boardY][boardX] != 0 {
              assert HitsAt(board[..], shape, pieceX, pieceY, y, x);
              return true;
            }
          }
          x := x + 1;
        }
        y := y + 1;
      }
      return false;
    }

    /** merge(): writes type + 1 into the board cell under every filled cell of
        the current mask, skipping cells above the top row. */
    method Merge()
      requires current.Some? && Shaped(board[..])
      requires !Collides(board[..], current.value.shape, pieceX, pieceY)
      modifies board
      ensures Snapshot() == MergePiece(old(Snapshot()))
    {
      ghost var g := board[..];
      var shape, kind := current.value.shape, current.value.kind;
      var y := 0;
      while y < |shape|
        invariant 0 <= y <= |shape|
        invariant forall r | 0 <= r < ROWS :: |board[r]| == COLS
        invariant forall r, c | 0 <= r < ROWS && 0 <= c < COLS ::
          board[r][c] == if Covers(shape, pieceX, pieceY, r, c) && r - pieceY < y then kind + 1 else g[r][c]
      {
        var x := 0;
        while x < |shape[y]|
          invariant 0 <= x <= |shape[y]|
          invariant forall r | 0 <= r < ROWS :: |board[r]| == COLS
          invariant forall r, c | 0 <= r < ROWS && 0 <= c < COLS ::
            board[r][c] ==
              if Covers(shape, pieceX, pieceY, r, c) && (r - pieceY < y || (r - pieceY == y && c - pieceX < x))
              then kind + 1 else g[r][c]
        {
          if shape[y][x] != 0 {
            var boardY := pieceY + y;
            var boardX := pieceX + x;
            if boardY >= 0 {
              assert !HitsAt(g, shape, pieceX, pieceY, y, x);
              board[boardY] := board[boardY][boardX := kind + 1];
            }
          }
          x := x + 1;
        }
        y := y + 1;
      }
      assert forall r | 0 <= r < ROWS ::
        board[r] == Merged(g, shape, kind, pieceX, pieceY)[r];
    }

    /** rotate(): turns the current mask by 90 degrees and keeps the turned
        mask only when it does not collide. */
    method Rotate()
      requires current.Some? && Shaped(board[..]) && Rectangular(current.value.shape)
      modifies this
      ensures board == old(board)
      ensures Snapshot() == Game.Rotate(old(Snapshot()))
    {
      var rotated := ComputeRotation(current.value.shape);
      var previousShape := current.value.shape;
      current := Some(current.value.(shape := rotated));
      var hit := Collision();
      if hit {
        current := Some(current.value.(shape := previousShape));
      }
    }

    /** move(dir): shifts the piece by dir columns and shifts it back when the
        new placement collides. */
    method Move(dir: int)
      requires current.Some? && Shaped(board[..])
      modifies this
      ensures board == old(board)
      ensures Snapshot() == Game.Move(old(Snapshot()), dir)
    {
      pieceX := pieceX + dir;
      var hit := Collision();
      if hit {
        pieceX := pieceX - dir;
      }
    }

    /** spawnPiece(): the next piece (or a fresh one when there is none) becomes
        current, a fresh piece becomes next, the piece is centred on row 0, and
        the game ends when it collides there. */
    method SpawnPiece(draw: PieceIndex, spare: PieceIndex)
      requires Shaped(board[..]) && (next.Some? ==> IsTemplate(next.value))
      modifies this
      ensures board == old(board)
      ensures Snapshot() == Spawn(old(Snapshot()), draw, spare)
    {
      var piece := if next.None? then Fresh(draw) else next.value;
      next := Some(if next.None? then Fresh(spare) else Fresh(draw));
      current := Some(piece);
      TemplateOk(piece);
      pieceX := (COLS - |piece.shape[0]|) / 2;
      pieceY := 0;
      var hit := Collision();
      if hit {
        GameOver();
      }
    }

    /** gameOver(): the game stops running. */
    method GameOver()
      modifies this
      ensures board == old(board)
      ensures Snapshot() == old(Snapshot()).(running := false)
    {
      running := false;
    }

    /** One pass of the clearLines loop, board.splice(line, 1) followed by
        board.unshift(a new empty row), done in place on the row array: the rows
        above line move down by one and row 0 becomes empty. */
    method RemoveRowInPlace(line: int)
      requires board.Length == ROWS && 0 <= line < ROWS
      modifies board
      ensures board[..] == RemoveRow(old(board[..]), line)
    {
      var r := line;
      while r > 0
        invariant 0 <= r <= line
        invariant forall k | 0 <= k < ROWS ::
          board[k] == if r < k <= line then old(board[k - 1]) else old(board[k])
      {
        board[r] := board[r - 1];
        r := r - 1;
      }
      board[0] := EMPTY_ROW;
      RemoveRowAt(old(board[..]), line);
    }

    /** The first loop of clearLines(): the indices of the full rows, scanned
        from the bottom row up. */
    method FullRowIndices() returns (linesToClear: seq<RowIndex>)
      requires Shaped(board[..])
      ensures linesToClear == FullRows(board[..])
    {
      linesToClear := [];
      var y := ROWS - 1;
      while y >= 0
        invariant -1 <= y < ROWS
        invariant linesToClear == FullRowsFrom(board[..], y + 1)
      {
        if RowFull(board[y]) {
          linesToClear := linesToClear + [y];
        }
        y := y - 1;
      }
    }

    /** The second loop of clearLines(): each collected index in turn is
        spliced out and an empty row is put on top. */
    method RemoveRows(linesToClear: seq<RowIndex>)
      requires board.Length == ROWS
      modifies board
      ensures board[..] == ClearRows(old(board[..]), linesToClear)
    {
      var i := 0;
      while i < |linesToClear|
        invariant 0 <= i <= |linesToClear|
        invariant ClearRows(board[..], linesToClear[i..]) == ClearRows(old(board[..]), linesToClear)
      {
        assert linesToClear[i..][1..] == linesToClear[i + 1..];
        RemoveRowInPlace(linesToClear[i]);
        i := i + 1;
      }
      assert linesToClear[i..] == [];
    }

    /** The counter updates at the end of clearLines(): the rows count as
        lines, score cleared * 100 * level at the old level, then the level and
        the drop interval follow the new line count. */
    method CountLines(cleared: nat)
      modifies this
      ensures board == old(board)
      ensures Snapshot() == Counted(old(Snapshot()), cleared)
    {
      PointsProduct(cleared, level);
      lines := lines + cleared;
      score := score + cleared * 100 * level;
      level := lines / 10 + 1;
      dropInterval := if 100 >= 1000 - (level - 1) * 100 then 100 else 1000 - (level - 1) * 100;
    }

    /** clearLines(): removes the full rows and, when there were any, adds them
        to the line count, adds their points at the old level, and recomputes
        the level and the drop interval. */
    method ClearLines()
      requires Shaped(board[..])
      modifies this, board
      ensures board == old(board)
      ensures Snapshot() == Game.ClearLines(old(Snapshot()))
    {
      ghost var s := Snapshot();
      var linesToClear := FullRowIndices();
      if |linesToClear| > 0 {
        RemoveRows(linesToClear);
        assert Snapshot() == s.(board := ClearRows(s.board, linesToClear));
        CountLines(|linesToClear|);
      } else {
        assert Snapshot() == s;
      }
    }

    /** The tail dropPiece and hardDrop share: merge, clearLines, spawnPiece. */
    method LockPiece(draw: PieceIndex)
      requires Live(Snapshot()) && !Collides(board[..], current.value.shape, pieceX, pieceY)
      modifies this, board
      ensures board == old(board)
      ensures Snapshot() == Game.Lock(old(Snapshot()), draw)
    {
      Merge();
      ClearLines();
      SpawnPiece(draw, draw);
    }

    /** dropPiece(): one row down; when that collides, back up, merge, clear
        lines and spawn the next piece. */
    method DropPiece(draw: PieceIndex)
      requires Live(Snapshot()) && Placed(Snapshot())
      modifies this, board
      ensures board == old(board)
      ensures Snapshot() == Drop(old(Snapshot()), draw)
    {
      ghost var s := Snapshot();
      pieceY := pieceY + 1;
      var hit := Collision();
      if hit {
        pieceY := pieceY - 1;
        assert Snapshot() == s;
        DropLocksHere(s, draw);
        LockPiece(draw);
      } else {
        DropFalls(s, draw);
      }
    }

    /** hardDrop(): step down while the piece does not collide, step back up
        one row, then merge, clear lines and spawn the next piece. */
    method HardDrop(draw: PieceIndex)
      requires Ready(Snapshot())
      modifies this, board
      ensures board == old(board)
      ensures Snapshot() == Game.HardDrop(old(Snapshot()), draw)
    {
      ghost var s := Snapshot();
      ghost var stop := FirstBlocked(s.board, s.current.value.shape, s.pieceX, s.pieceY);
      var hit := Collision();
      while !hit
        invariant board == old(board)
        invariant s.pieceY <= pieceY <= stop
        invariant Snapshot() == s.(pieceY := pieceY)
        invariant hit == Collides(s.board, s.current.value.shape, s.pieceX, pieceY)
        decreases stop - pieceY
      {
        pieceY := pieceY + 1;
        hit := Collision();
      }
      pieceY := pieceY - 1;
      assert pieceY == Landing(s);
      assert Snapshot() == s.(pieceY := Landing(s));
      LockPiece(draw);
    }

    /** handleInput(e) for the key e.key: ignored unless running; while paused
        only 'p' and 'P' act; arrows move, drop and rotate, space hard-drops,
        'p' and 'P' toggle the pause. The object stays valid. */
    method HandleInput(key: string, draw: PieceIndex)
      requires Valid()
      modifies this, board
      ensures board == old(board)
      ensures Snapshot() == Game.HandleInput(old(Snapshot()), key, draw)
      ensures Valid()
    {
      InputConsistent(Snapshot(), key, draw);
      if !running || (paused && key != "p" && key != "P") {
        return;
      }
      if key == "ArrowLeft" {
        Move(-1);
      } else if key == "ArrowRight" {
        Move(1);
      } else if key == "ArrowDown" {
        DropPiece(draw);
      } else if key == "ArrowUp" {
        Rotate();
      } else if key == " " {
        HardDrop(draw);
      } else if key == "p" || key == "P" {
        paused := !paused;
      }
    }

    /** The game-logic part of gameLoop(time): nothing when not running;
        otherwise record the frame time and, unless paused, advance the drop
        timer and drop the piece once the timer passes dropInterval. The object
        stays valid. */
    method GameLoop(time: int, draw: PieceIndex)
      requires Valid()
      modifies this, board
      ensures board == old(board)
      ensures Snapshot() == Tick(old(Snapshot()), time, draw)
      ensures Valid()
    {
      ghost var s := Snapshot();
      if !running {
        assert Snapshot() == s;
        return;
      }
      var deltaTime := time - lastTime;
      lastTime := time;
      if !paused {
        dropCounter := dropCounter + deltaTime;
        assert Snapshot() == Timed(s, time);
        if dropCounter > dropInterval {
          TimedReady(s, time);
          DropPiece(draw);
          dropCounter := 0;
        }
      }
      assert Snapshot() == Tick(s, time, draw);
      TickConsistent(s, time, draw);
    }

    /** start(): a new empty board, fresh counters, running and unpaused, two
        spawnPiece calls and a first gameLoop(0). The game is valid afterwards. */
    method Start(first: PieceIndex, second: PieceIndex, third: PieceIndex)
      requires next.Some? ==> IsTemplate(next.value)
      modifies this
      ensures fresh(board)
      ensures Snapshot() == Game.Start(old(Snapshot()), first, second, third)
      ensures Valid()
    {
      ghost var s := Snapshot();
      board := new seq<int>[ROWS](_ => EMPTY_ROW);
      score, lines, level := 0, 0, 1;
      dropInterval := 1000;
      running, paused := true, false;
      assert board[..] == EmptyBoard();
      assert Snapshot() == s.(board := EmptyBoard(), score := 0, lines := 0, level := 1, dropInterval := 1000,
                              running := true, paused := false);
      SpawnPiece(first, second);
      SpawnPiece(third, third);
      assert Snapshot() == Opening(s, first, second, third);
      OpeningReady(s, first, second, third);
      GameLoop(0, third);
    }
  }
}
