// One game session of tetris.js as a value, and each step of the engine
// (spawnPiece, move, rotate, dropPiece, hardDrop, clearLines, handleInput,
// the drop-timer part of gameLoop, start) as a function of the state before it.

module Game {
  import opened Pieces
  import opened Board

  datatype Option<T> = None | Some(value: T)

  /** A piece: its current mask and its type 0..6 (the colour is left out). */
  datatype Piece = Piece(shape: Mask, kind: int)

  /** The piece getRandomPiece returns for a drawn index: the unrotated template. */
  function Fresh(index: PieceIndex): Piece {
    Piece(PIECES[index], index)
  }

  predicate IsTemplate(p: Piece) {
    0 <= p.kind < 7 && p.shape == PIECES[p.kind]
  }

  ghost predicate PieceOk(p: Piece) {
    MaskOk(p.shape) && 0 <= p.kind < 7
  }

  /** The fields of the Tetris object that gameplay reads and writes. */
  datatype State = State(
    board: Grid,
    current: Option<Piece>,
    next: Option<Piece>,
    pieceX: int,
    pieceY: int,
    score: int,
    lines: int,
    level: int,
    dropInterval: int,
    dropCounter: int,
    lastTime: int,
    running: bool,
    paused: bool)

  /** The board start() allocates: every cell empty. */
  function EmptyBoard(): (g: Grid)
    ensures |g| == ROWS && forall r :: 0 <= r < ROWS ==> g[r] == EMPTY_ROW
  {
    seq(ROWS, r => EMPTY_ROW)
  }

  /** The fields as the constructor leaves them, before the first start(). */
  function Initial(): (s: State)
    ensures Consistent(s) && !s.running && s.current.None?
  {
    State(EmptyBoard(), None, None, 0, 0, 0, 0, 1, 1000, 0, 0, false, false)
  }

  /** level = floor(lines / 10) + 1: one level per completed ten lines. */
  function LevelFor(lines: int): (level: int)
    ensures lines >= 0 ==> level >= 1 && (level - 1) * 10 <= lines < level * 10
  {
    lines / 10 + 1
  }

  /** dropInterval = max(100, 1000 - (level - 1) * 100). */
  function IntervalFor(level: int): (ms: int)
    ensures level >= 1 ==> 100 <= ms <= 1000
    ensures ms == 100 <==> level >= 10
  {
    if 1000 - (level - 1) * 100 > 100 then 1000 - (level - 1) * 100 else 100
  }

  /** The session counters agree with each other. */
  ghost predicate CountersOk(s: State) {
    && s.score >= 0
    && s.lines >= 0
    && s.level == LevelFor(s.lines)
    && s.dropInterval == IntervalFor(s.level)
  }

  /** There is an active piece and a board to test it against. */
  predicate HasPiece(s: State) {
    s.current.Some? && Shaped(s.board)
  }

  /** The active piece sits on the board without colliding. */
  predicate Placed(s: State) {
    HasPiece(s) && !Collides(s.board, s.current.value.shape, s.pieceX, s.pieceY)
  }

  /** What holds between any two engine events. */
  ghost predicate Consistent(s: State) {
    && GridOk(s.board)
    && (s.current.Some? <==> s.next.Some?)
    && (s.current.Some? ==> PieceOk(s.current.value))
    && (s.next.Some? ==> IsTemplate(s.next.value))
    && CountersOk(s)
    && (s.running ==> Placed(s))
  }

  /** What dropPiece and hardDrop rely on: a settled, non-colliding active piece. */
  ghost predicate Ready(s: State) {
    Consistent(s) && Placed(s)
  }

  lemma TemplateOk(p: Piece)
    requires IsTemplate(p)
    ensures PieceOk(p) && 1 <= Width(p.shape) <= 4 && 1 <= |p.shape| <= 2
  {
    TemplatesOk(p.kind);
  }

  // ---------------------------------------------------------------- spawnPiece

  /** spawnPiece(): the next piece (or, when there is none, a fresh one) becomes
      current, a fresh piece becomes next, the current piece is centred on row 0,
      and the game ends iff that placement collides. `draw` is what the first
      getRandomPiece call returns, `spare` what the second one returns (made only
      when there was no next piece). */
  function Spawn(s: State, draw: PieceIndex, spare: PieceIndex): (t: State)
    requires Shaped(s.board)
    requires s.next.Some? ==> IsTemplate(s.next.value)
    ensures t.current == Some(if s.next.None? then Fresh(draw) else s.next.value)
    ensures t.next == Some(if s.next.None? then Fresh(spare) else Fresh(draw))
    ensures IsTemplate(t.current.value)
    ensures var w := Width(t.current.value.shape);
      t.pieceY == 0 && 0 <= t.pieceX && t.pieceX + w <= COLS && 0 <= (COLS - w) - 2 * t.pieceX <= 1
    ensures t == s.(current := t.current, next := t.next, pieceX := t.pieceX, pieceY := 0, running := t.running)
    ensures t.running <==> s.running && !Collides(s.board, t.current.value.shape, t.pieceX, 0)
  {
    var piece := if s.next.None? then Fresh(draw) else s.next.value;
    TemplateOk(piece);
    var x := (COLS - Width(piece.shape)) / 2;
    var placed := s.(current := Some(piece),
                     next := Some(if s.next.None? then Fresh(spare) else Fresh(draw)),
                     pieceX := x, pieceY := 0);
    if Collides(s.board, piece.shape, x, 0) then placed.(running := false) else placed
  }

  // ---------------------------------------------------------------- move, rotate

  /** move(dir): shift the piece by dir columns, undone when the new placement collides. */
  function Move(s: State, dir: int): (t: State)
    requires HasPiece(s)
    ensures t == s.(pieceX := t.pieceX)
    ensures t.pieceX == s.pieceX || t.pieceX == s.pieceX + dir
    ensures dir != 0 ==> (t.pieceX == s.pieceX + dir <==> !Collides(s.board, s.current.value.shape, s.pieceX + dir, s.pieceY))
    ensures Placed(s) ==> Placed(t)
  {
    if Collides(s.board, s.current.value.shape, s.pieceX + dir, s.pieceY) then s
    else s.(pieceX := s.pieceX + dir)
  }

  /** A move that went through is undone by the opposite move. */
  lemma MoveBack(s: State, dir: int)
    requires Placed(s) && Move(s, dir) != s
    ensures Move(Move(s, dir), -dir) == s
  {
  }

  /** rotate(): replace the mask by its rotation, kept only when it does not collide. */
  function Rotate(s: State): (t: State)
    requires HasPiece(s) && Rectangular(s.current.value.shape)
    ensures t == s.(current := t.current) && t.current.Some?
    ensures t.current.value.kind == s.current.value.kind
    ensures var turned := Rotation(s.current.value.shape);
      if Collides(s.board, turned, s.pieceX, s.pieceY) then t == s else t.current.value.shape == turned
    ensures Placed(s) ==> Placed(t)
  {
    var p := s.current.value;
    var turned := Rotation(p.shape);
    if Collides(s.board, turned, s.pieceX, s.pieceY) then s
    else s.(current := Some(p.(shape := turned)))
  }

  /** A rotation, committed or not, keeps the piece usable: same type, same
      number of filled cells, dimensions swapped when it is committed. */
  lemma RotateKeepsPiece(s: State)
    requires HasPiece(s) && PieceOk(s.current.value)
    ensures PieceOk(Rotate(s).current.value)
    ensures MaskCount(Rotate(s).current.value.shape) == MaskCount(s.current.value.shape)
    ensures Rotate(s) != s ==>
      |Rotate(s).current.value.shape| == Width(s.current.value.shape) &&
      Width(Rotate(s).current.value.shape) == |s.current.value.shape|
  {
    RotationOk(s.current.value.shape);
    RotationKeepsCount(s.current.value.shape);
  }

  // ---------------------------------------------------------------- locking

  /** merge(): the active piece written into the board. Only the board
      changes, and a non-colliding piece of a valid type keeps cells in 0..7. */
  function MergePiece(s: State): (t: State)
    requires HasPiece(s)
    ensures t == s.(board := t.board) && Shaped(t.board)
    ensures GridOk(s.board) && 0 <= s.current.value.kind < 7 && !Collides(s.board, s.current.value.shape, s.pieceX, s.pieceY)
      ==> GridOk(t.board)
  {
    var p := s.current.value;
    var t := s.(board := Merged(s.board, p.shape, p.kind, s.pieceX, s.pieceY));
    if GridOk(s.board) && 0 <= p.kind < 7 && !Collides(s.board, p.shape, s.pieceX, s.pieceY) then
      MergeWrites(s.board, p.shape, p.kind, s.pieceX, s.pieceY);
      t
    else t
  }

  /** The score clearLines adds for `cleared` rows at the level before the clear
      (cleared * 100 * level), one row at a time: at least 100 per row. */
  function Points(cleared: nat, level: int): (pts: int)
    ensures level >= 1 ==> pts >= 100 * cleared
  {
    if cleared == 0 then 0 else Points(cleared - 1, level) + 100 * level
  }

  /** Points is the product the source computes. */
  lemma {:induction false} PointsProduct(cleared: nat, level: int)
    ensures Points(cleared, level) == cleared * 100 * level
  {
    if cleared > 0 {
      PointsProduct(cleared - 1, level);
      assert cleared * 100 * level == (cleared - 1) * 100 * level + 100 * level;
    }
  }

  /** clearLines(): the collected full rows are spliced out one index after the
      other, and, when k > 0 rows were found, lines grows by k, score by
      k * 100 * (the old level), and level and dropInterval are recomputed. */
  function ClearLines(s: State): (t: State)
    requires Shaped(s.board)
    ensures Shaped(t.board)
    ensures FullRows(s.board) == [] ==> t == s
    ensures FullRows(s.board) != [] ==>
        && t.board == ClearRows(s.board, FullRows(s.board))
        && t.lines == s.lines + |FullRows(s.board)|
        && t.score == s.score + Points(|FullRows(s.board)|, s.level)
        && t.level == LevelFor(t.lines)
        && t.dropInterval == IntervalFor(t.level)
    ensures t == s.(board := t.board, lines := t.lines, score := t.score, level := t.level, dropInterval := t.dropInterval)
  {
    var found := FullRows(s.board);
    if |found| == 0 then s
    else Counted(s.(board := ClearRows(s.board, found)), |found|)
  }

  /** The counter updates of clearLines for `cleared` removed rows: lines and
      score grow, the score by the points at the level before the update, and
      consistent counters stay consistent. */
  function Counted(s: State, cleared: nat): (t: State)
    ensures t == s.(lines := t.lines, score := t.score, level := t.level, dropInterval := t.dropInterval)
    ensures t.lines == s.lines + cleared && t.score == s.score + Points(cleared, s.level)
    ensures s.score >= 0 && s.lines >= 0 && s.level >= 1 ==> CountersOk(t) && t.score >= s.score
  {
    var lines := s.lines + cleared;
    var level := LevelFor(lines);
    s.(lines := lines, score := s.score + Points(cleared, s.level), level := level, dropInterval := IntervalFor(level))
  }

  /** clearLines keeps the counters consistent: lines and score never decrease,
      level follows lines, and dropInterval stays between 100 and 1000. */
  lemma ClearLinesCounters(s: State)
    requires GridOk(s.board) && CountersOk(s)
    ensures GridOk(ClearLines(s).board) && CountersOk(ClearLines(s))
    ensures ClearLines(s).lines >= s.lines && ClearLines(s).score >= s.score
    ensures 100 <= ClearLines(s).dropInterval <= 1000
  {
  }

  /** What a locking step needs: an active piece, a next piece from the templates, a board. */
  predicate Live(s: State) {
    HasPiece(s) && s.next.Some? && IsTemplate(s.next.value)
  }

  /** The lock sequence shared by dropPiece and hardDrop: merge, clearLines, spawnPiece.
      nextPiece is never null once a game runs, so spawnPiece draws once. */
  function Lock(s: State, draw: PieceIndex): (t: State)
    requires Live(s)
    ensures Live(t) && t.current == s.next && t.next == Some(Fresh(draw))
  {
    Spawn(ClearLines(MergePiece(s)), draw, draw)
  }

  lemma LockConsistent(s: State, draw: PieceIndex)
    requires Ready(s)
    ensures Consistent(Lock(s, draw))
  {
    var p := s.current.value;
    MergeWrites(s.board, p.shape, p.kind, s.pieceX, s.pieceY);
    var merged := MergePiece(s);
    ClearLinesCounters(merged);
    var t := Lock(s, draw);
    TemplateOk(t.current.value);
  }

  // ---------------------------------------------------------------- dropPiece, hardDrop

  /** dropPiece(): one row down when that does not collide; otherwise the piece
      locks where it is (merge, clearLines, spawnPiece). */
  function Drop(s: State, draw: PieceIndex): (t: State)
    requires Live(s)
    ensures Live(t)
    ensures t.dropCounter == s.dropCounter && t.lastTime == s.lastTime && t.paused == s.paused
  {
    if !Collides(s.board, s.current.value.shape, s.pieceX, s.pieceY + 1) then
      s.(pieceY := s.pieceY + 1)
    else
      Lock(s, draw)
  }

  /** When the row below is free, dropPiece moves the piece one row down. */
  lemma DropFalls(s: State, draw: PieceIndex)
    requires Live(s) && !Collides(s.board, s.current.value.shape, s.pieceX, s.pieceY + 1)
    ensures Drop(s, draw) == s.(pieceY := s.pieceY + 1)
  {
  }

  /** When the row below is blocked, dropPiece is the lock sequence. */
  lemma DropLocksHere(s: State, draw: PieceIndex)
    requires Live(s) && Collides(s.board, s.current.value.shape, s.pieceX, s.pieceY + 1)
    ensures Drop(s, draw) == Lock(s, draw)
  {
  }

  /** dropPiece keeps the state consistent. */
  lemma DropConsistent(s: State, draw: PieceIndex)
    requires Ready(s)
    ensures Consistent(Drop(s, draw))
  {
    if Collides(s.board, s.current.value.shape, s.pieceX, s.pieceY + 1) {
      DropLocksHere(s, draw);
      LockConsistent(s, draw);
    } else {
      DropFalls(s, draw);
      ReadyAt(s, s.pieceY + 1);
    }
  }

  /** A free row below keeps the moved piece placed. */
  lemma DropStep(s: State, draw: PieceIndex)
    requires Ready(s) && !Collides(s.board, s.current.value.shape, s.pieceX, s.pieceY + 1)
    ensures Drop(s, draw) == s.(pieceY := s.pieceY + 1) && Placed(Drop(s, draw))
  {
    DropFalls(s, draw);
    ReadyAt(s, s.pieceY + 1);
  }

  /** When the row below is blocked, dropPiece merges the piece at the row it
      was on, clears the full rows of the merged board, counts them into lines
      and score, makes the next piece current and draws a new next piece; the
      game goes on iff the new piece fits at its spawn position. */
  lemma DropLocks(s: State, draw: PieceIndex)
    requires Ready(s) && Collides(s.board, s.current.value.shape, s.pieceX, s.pieceY + 1)
    ensures var p := s.current.value;
      var t := Drop(s, draw);
      var merged := Merged(s.board, p.shape, p.kind, s.pieceX, s.pieceY);
      && t.board == (if FullRows(merged) == [] then merged else ClearRows(merged, FullRows(merged)))
      && t.current == s.next && t.next == Some(Fresh(draw))
      && t.pieceY == 0
      && t.lines == s.lines + |FullRows(merged)|
      && t.score == s.score + Points(|FullRows(merged)|, s.level)
      && (t.running <==> s.running && !Collides(t.board, t.current.value.shape, t.pieceX, 0))
  {
    var cleared := ClearLines(MergePiece(s));
    assert Drop(s, draw) == Spawn(cleared, draw, draw);
  }

  lemma FloorBelow(g: Grid, m: Mask, px: int, py: int)
    requires Shaped(g) && MaskOk(m) && !Collides(g, m, px, py)
    ensures py < ROWS
  {
    var y, x :| Filled(m, y, x);
    assert !HitsAt(g, m, px, py, y, x);
  }

  /** The row at which the hardDrop loop stops: the first row at or below py
      where the piece collides; every row from py down to it is free. */
  function FirstBlocked(g: Grid, m: Mask, px: int, py: int): (y: int)
    requires Shaped(g) && MaskOk(m)
    ensures y >= py && Collides(g, m, px, y)
    ensures forall k :: py <= k < y ==> !Collides(g, m, px, k)
    decreases ROWS - py
  {
    if Collides(g, m, px, py) then py
    else
      FloorBelow(g, m, px, py);
      FirstBlocked(g, m, px, py + 1)
  }

  /** Moving a ready piece to another free row of the same column keeps it ready. */
  lemma ReadyAt(s: State, y: int)
    requires Ready(s) && !Collides(s.board, s.current.value.shape, s.pieceX, y)
    ensures Ready(s.(pieceY := y))
  {
  }

  /** The row hardDrop lands on: the piece is free there, ready, and blocked one row lower. */
  function Landing(s: State): (y: int)
    requires Ready(s)
    ensures y >= s.pieceY
    ensures Ready(s.(pieceY := y)) && Collides(s.board, s.current.value.shape, s.pieceX, y + 1)
  {
    var m := s.current.value.shape;
    var y := FirstBlocked(s.board, m, s.pieceX, s.pieceY) - 1;
    assert !Collides(s.board, m, s.pieceX, y);
    ReadyAt(s, y);
    y
  }

  /** hardDrop(): step down until the piece collides, step back up one row, lock. */
  function HardDrop(s: State, draw: PieceIndex): (t: State)
    requires Ready(s)
    ensures Live(t) && t.current == s.next && t.next == Some(Fresh(draw))
  {
    Lock(s.(pieceY := Landing(s)), draw)
  }

  /** On its way down, hardDrop passes through rows where a dropPiece would only
      move the piece one row down. */
  lemma HardDropPassesFreeRows(s: State, draw: PieceIndex, k: int)
    requires Ready(s) && s.pieceY <= k < Landing(s)
    ensures Ready(s.(pieceY := k)) && Drop(s.(pieceY := k), draw) == s.(pieceY := k + 1)
  {
    var m := s.current.value.shape;
    assert FirstBlocked(s.board, m, s.pieceX, s.pieceY) == Landing(s) + 1;
    assert !Collides(s.board, m, s.pieceX, k);
    assert !Collides(s.board, m, s.pieceX, k + 1);
    ReadyAt(s, k);
    DropStep(s.(pieceY := k), draw);
  }

  /** hardDrop ends as a dropPiece at the landing row does: it locks the piece there. */
  lemma HardDropIsLastDrop(s: State, draw: PieceIndex)
    requires Ready(s)
    ensures Drop(s.(pieceY := Landing(s)), draw) == HardDrop(s, draw)
  {
    var low := s.(pieceY := Landing(s));
    assert Collides(low.board, low.current.value.shape, low.pieceX, low.pieceY + 1);
  }

  /** hardDrop keeps the state consistent. */
  lemma HardDropConsistent(s: State, draw: PieceIndex)
    requires Ready(s)
    ensures Consistent(HardDrop(s, draw))
  {
    LockConsistent(s.(pieceY := Landing(s)), draw);
  }

  // ---------------------------------------------------------------- handleInput, gameLoop

  /** handleInput(e) for the key e.key; `draw` is the piece index a lock would draw. */
  function HandleInput(s: State, key: string, draw: PieceIndex): (t: State)
    requires Consistent(s)
    ensures !s.running ==> t == s
    ensures s.paused && key != "p" && key != "P" ==> t == s
    ensures s.running && (key == "p" || key == "P") ==> t == s.(paused := !s.paused)
    ensures s.running && !s.paused && key !in ["ArrowLeft", "ArrowRight", "ArrowDown", "ArrowUp", " ", "p", "P"] ==> t == s
  {
    if !s.running || (s.paused && key != "p" && key != "P") then s
    else if key == "ArrowLeft" then Move(s, -1)
    else if key == "ArrowRight" then Move(s, 1)
    else if key == "ArrowDown" then Drop(s, draw)
    else if key == "ArrowUp" then Rotate(s)
    else if key == " " then HardDrop(s, draw)
    else if key == "p" || key == "P" then s.(paused := !s.paused)
    else s
  }

  /** Every key keeps the state consistent. */
  lemma InputConsistent(s: State, key: string, draw: PieceIndex)
    requires Consistent(s)
    ensures Consistent(HandleInput(s, key, draw))
  {
    if s.running && (!s.paused || key == "p" || key == "P") {
      if key == "ArrowDown" {
        DropConsistent(s, draw);
      } else if key == "ArrowUp" {
        RotateKeepsPiece(s);
      } else if key == " " {
        HardDropConsistent(s, draw);
      }
    }
  }

  /** The frame bookkeeping of gameLoop(time) while unpaused: the elapsed time
      since the last frame is added to dropCounter and lastTime becomes time. */
  function Timed(s: State, time: int): (t: State)
    ensures t.dropCounter - s.dropCounter == time - s.lastTime && t.lastTime == time
    ensures t == s.(lastTime := t.lastTime, dropCounter := t.dropCounter)
  {
    s.(lastTime := time, dropCounter := s.dropCounter + (time - s.lastTime))
  }

  /** One gameLoop(time) call: nothing when not running; while paused only
      lastTime becomes time; otherwise the frame is timed and a dropPiece happens
      (with the counter reset to 0) once dropCounter exceeds dropInterval. */
  function Tick(s: State, time: int, draw: PieceIndex): (t: State)
    requires s.running ==> Live(s)
    ensures !s.running ==> t == s
    ensures s.running && s.paused ==> t == s.(lastTime := time)
    ensures s.running && !s.paused && s.dropCounter + (time - s.lastTime) <= s.dropInterval ==> t == Timed(s, time)
    ensures s.running && !s.paused && s.dropCounter + (time - s.lastTime) > s.dropInterval ==>
      t.lastTime == time && t.dropCounter == 0 && t == Drop(Timed(s, time), draw).(dropCounter := 0)
  {
    if !s.running then s
    else if s.paused then s.(lastTime := time)
    else if Timed(s, time).dropCounter > s.dropInterval then Drop(Timed(s, time), draw).(dropCounter := 0)
    else Timed(s, time)
  }

  /** The frame clock and the drop timer take no part in consistency. */
  lemma Retimed(s: State, lastTime: int, dropCounter: int)
    requires Consistent(s)
    ensures Consistent(s.(lastTime := lastTime, dropCounter := dropCounter))
    ensures Placed(s) ==> Placed(s.(lastTime := lastTime, dropCounter := dropCounter))
  {
  }

  /** The state gameLoop hands to dropPiece is ready for it. */
  lemma TimedReady(s: State, time: int)
    requires Consistent(s) && s.running
    ensures Live(Timed(s, time)) && Placed(Timed(s, time))
  {
    Retimed(s, time, s.dropCounter + (time - s.lastTime));
  }

  /** A timer-fired drop followed by the counter reset keeps the state consistent. */
  lemma DropAndReset(s: State, draw: PieceIndex)
    requires Ready(s)
    ensures Consistent(Drop(s, draw).(dropCounter := 0))
  {
    DropConsistent(s, draw);
    Retimed(Drop(s, draw), Drop(s, draw).lastTime, 0);
  }

  /** gameLoop keeps the state consistent. */
  lemma TickConsistent(s: State, time: int, draw: PieceIndex)
    requires Consistent(s)
    ensures Consistent(Tick(s, time, draw))
  {
    if !s.running || s.paused {
      Retimed(s, time, s.dropCounter);
    } else if s.dropCounter + (time - s.lastTime) <= s.dropInterval {
      Retimed(s, time, s.dropCounter + (time - s.lastTime));
    } else {
      TickFiresConsistent(s, time, draw);
    }
  }

  /** The state after a timer-fired drop is consistent. */
  lemma TickFiresConsistent(s: State, time: int, draw: PieceIndex)
    requires Consistent(s) && s.running && !s.paused
    requires s.dropCounter + (time - s.lastTime) > s.dropInterval
    ensures Consistent(Tick(s, time, draw))
  {
    Retimed(s, time, s.dropCounter + (time - s.lastTime));
    DropAndReset(Timed(s, time), draw);
  }

  // ---------------------------------------------------------------- start

  /** A template placed where spawnPiece puts it, or one row lower, is clear of an empty board. */
  lemma EmptyBoardClear(p: Piece, py: int)
    requires IsTemplate(p) && 0 <= py <= 1
    ensures !Collides(EmptyBoard(), p.shape, (COLS - Width(p.shape)) / 2, py)
  {
    TemplateOk(p);
    var m, px := p.shape, (COLS - Width(p.shape)) / 2;
    forall y, x | 0 <= y < |m| && 0 <= x < |m[y]|
      ensures !HitsAt(EmptyBoard(), m, px, py, y, x)
    {
      assert |m[y]| == Width(m);
    }
  }

  /** The first half of start(): fresh board and counters, running and
      unpaused, then two spawnPiece calls. dropCounter, lastTime and the next
      piece are not reset. `first` and `second` are the draws of the first
      spawnPiece, `third` the draw of the second: the current piece is the
      second draw (or the first, when a next piece was left over) and the third
      draw is next. */
  function Opening(s: State, first: PieceIndex, second: PieceIndex, third: PieceIndex): (t: State)
    requires s.next.Some? ==> IsTemplate(s.next.value)
    ensures !t.paused && t.board == EmptyBoard()
    ensures t.score == 0 && t.lines == 0 && t.level == 1 && t.dropInterval == 1000
    ensures t.lastTime == s.lastTime && t.dropCounter == s.dropCounter
    ensures t.current == Some(if s.next.None? then Fresh(second) else Fresh(first))
    ensures t.next == Some(Fresh(third))
    ensures t.pieceY == 0
  {
    var reset := s.(board := EmptyBoard(), score := 0, lines := 0, level := 1, dropInterval := 1000,
                    running := true, paused := false);
    Spawn(Spawn(reset, first, second), third, third)
  }

  /** After the opening the game is running and the piece is ready and could
      move one row down: neither spawn collides on the empty board. */
  lemma OpeningReady(s: State, first: PieceIndex, second: PieceIndex, third: PieceIndex)
    requires s.next.Some? ==> IsTemplate(s.next.value)
    ensures var t := Opening(s, first, second, third);
      && Ready(t) && t.running
      && !Collides(t.board, t.current.value.shape, t.pieceX, 1)
  {
    var t := Opening(s, first, second, third);
    EmptyBoardClear(t.current.value, 0);
    EmptyBoardClear(t.current.value, 1);
    TemplateOk(t.current.value);
  }

  /** start(): the opening, then gameLoop(0). It always begins a consistent
      game: running, unpaused, empty board, zero score, level 1 with a 1000 ms
      interval, lastTime 0. That first gameLoop(0) drops the piece by one row iff
      dropCounter - lastTime exceeds 1000, and such a drop never locks. */
  function Start(s: State, first: PieceIndex, second: PieceIndex, third: PieceIndex): (t: State)
    requires s.next.Some? ==> IsTemplate(s.next.value)
    ensures var due := s.dropCounter - s.lastTime > 1000;
      && Consistent(t)
      && t.running && !t.paused
      && t.board == EmptyBoard()
      && t.score == 0 && t.lines == 0 && t.level == 1 && t.dropInterval == 1000
      && t.lastTime == 0
      && t.current == Some(if s.next.None? then Fresh(second) else Fresh(first))
      && t.next == Some(Fresh(third))
      && t.pieceY == (if due then 1 else 0)
      && t.dropCounter == (if due then 0 else s.dropCounter - s.lastTime)
    ensures s.dropCounter - s.lastTime > 1000 ==>
      t == Opening(s, first, second, third).(lastTime := 0, dropCounter := 0, pieceY := 1)
  {
    OpeningReady(s, first, second, third);
    Retimed(Opening(s, first, second, third), 0, s.dropCounter - s.lastTime);
    if s.dropCounter - s.lastTime > 1000 then
      DropFalls(Timed(Opening(s, first, second, third), 0), third);
      DropAndReset(Timed(Opening(s, first, second, third), 0), third);
      Tick(Opening(s, first, second, third), 0, third)
    else
      Tick(Opening(s, first, second, third), 0, third)
  }
}
