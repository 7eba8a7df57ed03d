/** What the events of the game do to the cells on the board. */
module TetrisLaws {
  import opened TetrisModel

  /** The cells of the piece, on the board. */
  function PieceAt(g: Game): set<Cell>
    requires g.kind < 7 && g.rot < 4
  {
    set i | 0 <= i < |PieceCells(g.kind, g.rot)| ::
        Cell(g.x + PieceCells(g.kind, g.rot)[i].x, g.y + PieceCells(g.kind, g.rot)[i].y)
  }

  /** Such cells are inside the walls and the floor and not on occupied ones; above the board they are free. */
  ghost predicate Free(b: Board, cells: set<Cell>)
    requires ValidBoard(b)
  {
    forall c :: c in cells ==> 0 <= c.x < 10 && c.y < 20 && (c.y >= 0 ==> b[c.y][c.x] == 0)
  }

  /** The piece, moved. */
  function Put(g: Game, dx: int, dy: int, rot: nat): (r: Game)
    requires g.kind < 7 && rot < 4
    ensures r.kind == g.kind && r.rot == rot
  {
    g.(x := g.x + dx, y := g.y + dy, rot := rot)
  }

  lemma HitsMeans(g: Game, dx: int, dy: int, rot: nat)
    requires WellFormed(g) && rot < 4
    ensures Hits(g, dx, dy, rot) <==> !Free(g.board, PieceAt(Put(g, dx, dy, rot)))
  {
    hide PieceCells;
    var cs, p := PieceCells(g.kind, rot), PieceAt(Put(g, dx, dy, rot));
    if Hits(g, dx, dy, rot) {
      var i :| 0 <= i < |cs| && CellBlocked(g.board, Moved(cs[i], g.x + dx, g.y + dy));
      assert Moved(cs[i], g.x + dx, g.y + dy) in p;
    } else {
      forall c | c in p ensures 0 <= c.x < 10 && c.y < 20 && (c.y >= 0 ==> g.board[c.y][c.x] == 0) {
        var i :| 0 <= i < |cs| && c == Cell(g.x + dx + cs[i].x, g.y + dy + cs[i].y);
        assert !CellBlocked(g.board, Moved(cs[i], g.x + dx, g.y + dy));
      }
    }
  }

  /** Left and right move the piece by a column where it is free, and a turn goes a quarter turn on, in place or else
      one
      column to the left or else one to the right. Nothing else changes. */
  lemma MoveMeans(g: Game)
    requires Playable(g) && Active(g)
    ensures var left := Put(g, -1, 0, g.rot);
            Step(g, Left) == if Free(g.board, PieceAt(left)) then left else g
    ensures var right := Put(g, 1, 0, g.rot);
            Step(g, Right) == if Free(g.board, PieceAt(right)) then right else g
    ensures var rot := (g.rot + 1) % 4;
            Step(g, Rotate) ==
              if Free(g.board, PieceAt(Put(g, 0, 0, rot))) then Put(g, 0, 0, rot)
              else if Free(g.board, PieceAt(Put(g, -1, 0, rot))) then Put(g, -1, 0, rot)
              else if Free(g.board, PieceAt(Put(g, 1, 0, rot))) then Put(g, 1, 0, rot)
              else g
  {
    hide Free, PieceAt, Hits, Settle, Dropped;
    var rot := (g.rot + 1) % 4;
    HitsMeans(g, -1, 0, g.rot);
    HitsMeans(g, 1, 0, g.rot);
    HitsMeans(g, 0, 0, rot);
    HitsMeans(g, -1, 0, rot);
    HitsMeans(g, 1, 0, rot);
  }

  /** A soft drop moves the piece down by a row for a point where it is free; otherwise it comes to rest. A frame does
      so without points once its interval has passed. */
  lemma FallMeans(g: Game)
    requires Playable(g) && Active(g)
    ensures FullCount(Locked(g)) <= 4
    ensures var down := Put(g, 0, 1, g.rot);
            Step(g, SoftDrop) ==
              if Free(g.board, PieceAt(down)) then down.(score := g.score + 1) else Settle(g)
    ensures g.frame + 1 < DropInterval(g.lines) ==> Step(g, Frame) == g.(frame := g.frame + 1)
    ensures g.frame + 1 >= DropInterval(g.lines) ==>
              var h := g.(frame := 0);
              && FullCount(Locked(h)) <= 4
              && Step(g, Frame) == if Free(g.board, PieceAt(Put(h, 0, 1, h.rot))) then Put(h, 0, 1, h.rot)
                  else Settle(h)
  {
    hide Free, PieceAt, Hits, Settle, Dropped, Locked, FullCount, DropInterval;
    LockCounts(g);
    LockCounts(g.(frame := 0));
    HitsMeans(g, 0, 1, g.rot);
    HitsMeans(g.(frame := 0), 0, 1, g.rot);
  }

  /** A hard drop takes the piece straight down, through free cells only, as far as they go, for two points a row. */
  lemma {:induction false} DropMeans(g: Game) returns (n: nat)
    requires Playable(g) && !g.over
    ensures Dropped(g) == Put(g, 0, n, g.rot).(score := g.score + 2 * n)
    ensures forall m: nat :: m <= n ==> Free(g.board, PieceAt(Put(g, 0, m, g.rot)))
    ensures !Free(g.board, PieceAt(Put(g, 0, n + 1, g.rot)))
    decreases 20 - g.y
  {
    hide Free, PieceAt, Collides, Full, PieceCells;
    HitsMeans(g, 0, 0, g.rot);
    HitsMeans(g, 0, 1, g.rot);
    assert Put(g, 0, 0, g.rot) == g;
    if Hits(g, 0, 1, g.rot) {
      n := 0;
    } else {
      PieceAboveFloor(g.board, g.kind, g.x, g.y + 1, g.rot);
      var next := g.(y := g.y + 1, score := g.score + 2);
      var k := DropMeans(next);
      n := k + 1;
      forall m: nat | m <= n ensures Free(g.board, PieceAt(Put(g, 0, m, g.rot))) {
        if m > 0 {
          SamePlace(Put(g, 0, m, g.rot), Put(next, 0, m - 1, g.rot));
        }
      }
      SamePlace(Put(g, 0, n + 1, g.rot), Put(next, 0, k + 1, g.rot));
    }
  }

  lemma SamePlace(a: Game, b: Game)
    requires a.kind == b.kind < 7 && a.rot == b.rot < 4 && a.x == b.x && a.y == b.y
    ensures PieceAt(a) == PieceAt(b)
  {}

  // ---------------------------------------------------------------- locking and clearing

  lemma {:induction false} PaintMeans(b: Board, cells: seq<Cell>, x: int, y: int, v: nat, r: nat, c: nat)
    requires ValidBoard(b) && r < 20 && c < 10
    ensures ValidBoard(Paint(b, cells, x, y, v))
    ensures Paint(b, cells, x, y, v)[r][c]
         == if exists i :: 0 <= i < |cells| && Moved(cells[i], x, y) == Cell(c, r) then v else b[r][c]
    decreases |cells|
  {
    if cells != [] {
      var m := Moved(cells[0], x, y);
      var next := if 0 <= m.x < WIDTH && 0 <= m.y < HEIGHT then SetCell(b, m.x, m.y, v) else b;
      PaintMeans(next, cells[1..], x, y, v, r, c);
      assert forall i :: 0 < i < |cells| ==> cells[i] == cells[1..][i - 1];
      if i :| 0 <= i < |cells[1..]| && Moved(cells[1..][i], x, y) == Cell(c, r) {
        assert Moved(cells[i + 1], x, y) == Cell(c, r);
      }
    }
  }

  /** Locking fills exactly the cells of the piece, with its number. */
  lemma LockedMeans(g: Game, r: nat, c: nat)
    requires WellFormed(g) && r < 20 && c < 10
    ensures Locked(g)[r][c] == if Cell(c, r) in PieceAt(g) then g.kind + 1 else g.board[r][c]
  {
    hide PieceCells;
    var cells := PieceCells(g.kind, g.rot);
    PaintMeans(g.board, cells, g.x, g.y, g.kind + 1, r, c);
    if Cell(c, r) in PieceAt(g) {
      var i :| 0 <= i < |cells| && Cell(c, r) == Cell(g.x + cells[i].x, g.y + cells[i].y);
      assert Moved(cells[i], g.x, g.y) == Cell(c, r);
    }
  }

  /** In rows stacked on one another, each that stays sinks by the number of full rows below it. */
  lemma {:induction false} KeptMeans(rows: seq<Row>, y: nat)
    requires y < |rows| && !Full(rows[y])
    ensures FullCount(rows[y + 1..]) <= |rows| - 1 - y
    ensures 0 <= y + FullCount(rows[y + 1..]) - FullCount(rows) < |Kept(rows)|
    ensures Kept(rows)[y + FullCount(rows[y + 1..]) - FullCount(rows)] == rows[y]
    decreases |rows|
  {
    hide Full;
    if y > 0 {
      KeptMeans(rows[1..], y - 1);
      assert rows[1..][y - 1] == rows[y] && rows[1..][y..] == rows[y + 1..];
    } else {
      FullCountFits(rows[1..]);
    }
  }

  lemma {:induction false} FullCountFits(rows: seq<Row>)
    ensures FullCount(rows) <= |rows|
  {
    if rows != [] {
      FullCountFits(rows[1..]);
    }
  }

  /** Clearing: a row that is not full sinks by the number of full rows below it, and empty rows come in at the top. */
  lemma ClearMeans(b: Board, y: nat)
    requires ValidBoard(b) && y < 20
    ensures !Full(b[y]) ==> y + FullCount(b[y + 1..]) < 20 && ClearRows(b)[y + FullCount(b[y + 1..])] == b[y]
    ensures y < FullCount(b) ==> ClearRows(b)[y] == [0, 0, 0, 0, 0, 0, 0, 0, 0, 0]
  {
    hide Full, FullCount, Kept;
    if !Full(b[y]) {
      KeptMeans(b, y);
    }
  }
}
