/** The falling-block game in place: a board of rows and the fields the events update. */
module Tetris {
  import opened TetrisModel

  class Tetris {
    const board: array<Row>
    var kind: nat
    var rot: nat
    var x: int
    var y: int
    var next: nat
    var frame: nat
    var lines: nat
    var score: nat
    var over: bool
    var paused: bool
    var rng: nat

    /** The game as a value. */
    ghost function State(): Game
      reads this, board
    {
      Game(board[..], kind, rot, x, y, next, frame, lines, score, over, paused, rng)
    }

    ghost predicate Valid()
      reads this, board
    {
      Playable(State())
    }

    constructor ()
      ensures Valid() && fresh(board) && State() == Run([])
    {
      board := new Row[HEIGHT](_ => EmptyRow());
      kind, rot, x, y, next, frame, lines, score, over, paused, rng := 0, 0, 0, 0, 0, 0, 0, 0, false, false, 0;
      new;
      Reset();
      NewGameKeeps();
    }

    method Reset()
      requires board.Length == HEIGHT
      modifies this, board
      ensures State() == NewGame()
    {
      hide Collides;
      for i := 0 to HEIGHT
        modifies board
        invariant board.Length == HEIGHT && forall k :: 0 <= k < i ==> board[k] == EmptyRow()
      {
        board[i] := EmptyRow();
      }
      assert board[..] == EmptyRows(HEIGHT);
      kind, rot, x, y, frame, lines, score, over, paused := 0, 0, 0, 0, 0, 0, 0, false, false;
      rng := RngNext(0x4B1D1234);
      next := rng % 7;
      SpawnPiece();
    }

    method PieceCollides(testX: int, testY: int, testRot: nat) returns (hit: bool)
      requires WellFormed(State()) && testRot < 4
      ensures hit == Collides(board[..], kind, testX, testY, testRot)
    {
      hide PieceCells;
      PieceShape(kind, testRot);
      var cells := PieceCells(kind, testRot);
      for i := 0 to 4
        invariant forall k :: 0 <= k < i ==> !CellBlocked(board[..], Moved(cells[k], testX, testY))
      {
        var cx, cy := testX + cells[i].x, testY + cells[i].y;
        ghost var c := Moved(cells[i], testX, testY);
        if cx < 0 || cx >= WIDTH {
          assert CellBlocked(board[..], c);
          return true;
        }
        if cy >= HEIGHT {
          assert CellBlocked(board[..], c);
          return true;
        }
        if cy >= 0 && board[cy][cx] != 0 {
          assert CellBlocked(board[..], c);
          return true;
        }
        assert !CellBlocked(board[..], c);
      }
      return false;
    }

    method SpawnPiece()
      requires WellFormed(State())
      modifies this
      ensures State() == Spawn(old(State()))
    {
      hide Collides;
      kind := next;
      rng := RngNext(rng);
      next := rng % 7;
      rot := 0;
      x := 3;
      y := 0;
      var hit := PieceCollides(x, y, rot);
      if hit {
        over := true;
      }
    }

    method LockPiece()
      requires WellFormed(State())
      modifies board
      ensures board[..] == Locked(old(State()))
    {
      hide PieceCells, Collides;
      PieceShape(kind, rot);
      var cells := PieceCells(kind, rot);
      for i := 0 to 4
        invariant ValidBoard(board[..])
        invariant Paint(board[..], cells[i..], x, y, kind + 1) == Locked(old(State()))
      {
        var cx, cy := x + cells[i].x, y + cells[i].y;
        assert cells[i..][0] == cells[i] && cells[i..][1..] == cells[i + 1..];
        ghost var before := board[..];
        if 0 <= cx < WIDTH && 0 <= cy < HEIGHT {
          var row: Row := board[cy];
          board[cy] := row[cx := kind + 1];
          assert board[..] == SetCell(before, cx, cy, kind + 1);
        }
      }
    }

    method RowIsFull(y: nat) returns (full: bool)
      requires y < board.Length
      ensures full == Full(board[y])
    {
      for x := 0 to |board[y]|
        invariant forall k :: 0 <= k < x ==> board[y][k] != 0
      {
        if board[y][x] == 0 {
          return false;
        }
      }
      return true;
    }

    /** Row y is dropped: those above move down by one, below a fresh empty row. */
    method DropRowsAbove(y: nat)
      requires y < board.Length
      modifies board
      ensures board[..] == [EmptyRow()] + old(board[..y]) + old(board[y + 1..])
    {
      var yy := y;
      while yy > 0
        modifies board
        invariant 0 <= yy <= y
        invariant forall k :: 0 <= k <= yy ==> board[k] == old(board[k])
        invariant forall k :: yy < k <= y ==> board[k] == old(board[k - 1])
        invariant forall k :: y < k < board.Length ==> board[k] == old(board[k])
      {
        board[yy] := board[yy - 1];
        yy := yy - 1;
      }
      board[0] := EmptyRow();
    }

    /** A row that took the place of a full one is examined again. */
    method ClearCompletedLines() returns (cleared: nat)
      requires ValidBoard(board[..]) && FullCount(board[..]) <= 4
      modifies this`lines, this`score, board
      ensures cleared == FullCount(old(board[..])) && board[..] == ClearRows(old(board[..]))
      ensures lines == old(lines) + cleared && score == old(score) + LineScore(cleared)
    {
      hide Full, FullCount, ClearRows;
      cleared := 0;
      var y: int := HEIGHT - 1;
      while y >= 0
        modifies board
        invariant -1 <= y < HEIGHT && ValidBoard(board[..])
        invariant cleared + FullCount(board[..]) == FullCount(old(board[..]))
        invariant ClearRows(board[..]) == ClearRows(old(board[..]))
        invariant forall k :: y < k < HEIGHT ==> !Full(board[k])
        decreases y + FullCount(board[..])
      {
        var full := RowIsFull(y);
        if !full {
          y := y - 1;
        } else {
          RemoveFullRow(board[..], y);
          cleared := cleared + 1;
          ghost var before := board[..];
          DropRowsAbove(y);
          assert forall k :: y < k < HEIGHT ==> board[..][k] == before[k];
        }
      }
      NothingToClear(board[..]);
      if cleared > 0 {
        lines := lines + cleared;
        score := score + LineScore(cleared);
      }
    }

    method TryMovePiece(dx: int)
      requires WellFormed(State())
      modifies this`x
      ensures State() == TryMove(old(State()), dx)
    {
      hide Collides;
      var hit := PieceCollides(x + dx, y, rot);
      if !hit {
        x := x + dx;
      }
    }

    method TryRotatePiece()
      requires WellFormed(State())
      modifies this`x, this`rot
      ensures State() == TryRotate(old(State()))
    {
      hide Collides;
      var testRot := (rot + 1) % 4;
      var hit := PieceCollides(x, y, testRot);
      if !hit {
        rot := testRot;
        return;
      }
      hit := PieceCollides(x - 1, y, testRot);
      if !hit {
        x := x - 1;
        rot := testRot;
        return;
      }
      hit := PieceCollides(x + 1, y, testRot);
      if !hit {
        x := x + 1;
        rot := testRot;
      }
    }

    method SettleAndSpawn()
      requires WellFormed(State()) && FullCount(Locked(State())) <= 4
      modifies this, board
      ensures State() == Settle(old(State()))
    {
      hide Paint, PieceCells, FullCount, ClearRows, Spawn;
      LockPiece();
      ClearRowsCounts(board[..]);
      var _ := ClearCompletedLines();
      SpawnPiece();
    }

    method HardDropPiece()
      requires Valid() && !over
      modifies this, board
      ensures FullCount(Locked(Dropped(old(State())))) <= 4 && State() == Settle(Dropped(old(State())))
    {
      hide Settle, FullCount, Locked, Collides, Full, PieceCells, PieceFree, Spawn, Dropped;
      var drop := 0;
      DropKeeps(State());
      LockCounts(Dropped(State()));
      var hit := PieceCollides(x, y + 1, rot);
      while !hit
        modifies this`y
        invariant WellFormed(State()) && hit == Hits(State(), 0, 1, rot) && drop >= 0
        invariant Dropped(State().(score := score + drop * 2)) == Dropped(old(State()))
        decreases HEIGHT - y, !hit
      {
        DroppedStep(State(), drop);
        y := y + 1;
        drop := drop + 1;
        hit := PieceCollides(x, y + 1, rot);
      }
      DroppedStep(State(), drop);
      score := score + drop * 2;
      SettleAndSpawn();
    }

    method TickFall()
      requires WellFormed(State()) && FullCount(Locked(State())) <= 4
      modifies this, board
      ensures State() == Fall(old(State()), 0)
    {
      hide Settle, Locked, FullCount, Collides;
      var hit := PieceCollides(x, y + 1, rot);
      if !hit {
        y := y + 1;
        return;
      }
      SettleAndSpawn();
    }

    method SoftDropPiece()
      requires WellFormed(State()) && FullCount(Locked(State())) <= 4
      modifies this, board
      ensures State() == Fall(old(State()), 1)
    {
      hide Settle, Locked, FullCount, Collides;
      var hit := PieceCollides(x, y + 1, rot);
      if !hit {
        y := y + 1;
        score := score + 1;
      } else {
        SettleAndSpawn();
      }
    }

    /** One key of the event loop. */
    method Key(e: Event)
      requires Valid() && !e.Frame?
      modifies this, board
      ensures Valid() && State() == Step(old(State()), e)
    {
      hide Fall, Settle, Dropped, Locked, FullCount, Collides, NewGame, TryMove, TryRotate, PieceFree;
      StepKeeps(State(), e);
      if e.Restart? {
        Reset();
      } else if e.Pause? {
        paused := !paused;
      } else if !paused && !over {
        LockCounts(State());
        match e
        case Left => TryMovePiece(-1);
        case Right => TryMovePiece(1);
        case Rotate => TryRotatePiece();
        case SoftDrop => SoftDropPiece();
        case HardDrop => HardDropPiece();
        case Ignored =>
      }
    }

    /** The end of one turn of the event loop. */
    method NextFrame()
      requires Valid()
      modifies this, board
      ensures Valid() && State() == Step(old(State()), Frame)
    {
      hide Fall, Settle, Dropped, Locked, FullCount, Collides;
      StepKeeps(State(), Frame);
      if !paused && !over {
        frame := frame + 1;
        if frame >= DropInterval(lines) {
          frame := 0;
          LockCounts(State());
          TickFall();
        }
      }
    }
  }

  lemma NothingToClear(b: Board)
    requires ValidBoard(b) && forall y :: 0 <= y < HEIGHT ==> !Full(b[y])
    ensures FullCount(b) == 0 && ClearRows(b) == b
  {
    NoneFull(b);
    assert EmptyRows(0) + b == b;
  }

  /** Any sequence of events played on a new game. */
  method Play(events: seq<Event>) returns (game: Tetris)
    ensures game.State() == Run(events)
  {
    hide Step;
    game := new Tetris();
    for i := 0 to |events|
      invariant fresh(game) && fresh(game.board) && game.Valid() && game.State() == Run(events[..i])
    {
      assert events[..i + 1][..i] == events[..i];
      if events[i].Frame? {
        game.NextFrame();
      } else {
        game.Key(events[i]);
      }
    }
    assert events[..|events|] == events;
  }
}
