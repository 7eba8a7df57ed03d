/** The falling-block game as values: what every event does, and what every run keeps. */
module TetrisModel {
  import opened Numbers

  const WIDTH: nat := 10
  const HEIGHT: nat := 20

  type Row = seq<nat>
  type Board = seq<Row>

  datatype Cell = Cell(x: int, y: int)

  /** The cells of a piece in a rotation, relative to its position. */
  function PieceCells(kind: nat, rot: nat): seq<Cell>
    requires kind < 7 && rot < 4
  {
    match (kind, rot)
    case (0, 0) => [Cell(0, 1), Cell(1, 1), Cell(2, 1), Cell(3, 1)]
    case (0, 1) => [Cell(2, 0), Cell(2, 1), Cell(2, 2), Cell(2, 3)]
    case (0, 2) => [Cell(0, 2), Cell(1, 2), Cell(2, 2), Cell(3, 2)]
    case (0, 3) => [Cell(1, 0), Cell(1, 1), Cell(1, 2), Cell(1, 3)]
    case (1, 0) => [Cell(1, 0), Cell(2, 0), Cell(1, 1), Cell(2, 1)]
    case (1, 1) => [Cell(1, 0), Cell(2, 0), Cell(1, 1), Cell(2, 1)]
    case (1, 2) => [Cell(1, 0), Cell(2, 0), Cell(1, 1), Cell(2, 1)]
    case (1, 3) => [Cell(1, 0), Cell(2, 0), Cell(1, 1), Cell(2, 1)]
    case (2, 0) => [Cell(1, 0), Cell(0, 1), Cell(1, 1), Cell(2, 1)]
    case (2, 1) => [Cell(1, 0), Cell(1, 1), Cell(2, 1), Cell(1, 2)]
    case (2, 2) => [Cell(0, 1), Cell(1, 1), Cell(2, 1), Cell(1, 2)]
    case (2, 3) => [Cell(1, 0), Cell(0, 1), Cell(1, 1), Cell(1, 2)]
    case (3, 0) => [Cell(1, 0), Cell(2, 0), Cell(0, 1), Cell(1, 1)]
    case (3, 1) => [Cell(1, 0), Cell(1, 1), Cell(2, 1), Cell(2, 2)]
    case (3, 2) => [Cell(1, 1), Cell(2, 1), Cell(0, 2), Cell(1, 2)]
    case (3, 3) => [Cell(0, 0), Cell(0, 1), Cell(1, 1), Cell(1, 2)]
    case (4, 0) => [Cell(0, 0), Cell(1, 0), Cell(1, 1), Cell(2, 1)]
    case (4, 1) => [Cell(2, 0), Cell(1, 1), Cell(2, 1), Cell(1, 2)]
    case (4, 2) => [Cell(0, 1), Cell(1, 1), Cell(1, 2), Cell(2, 2)]
    case (4, 3) => [Cell(1, 0), Cell(0, 1), Cell(1, 1), Cell(0, 2)]
    case (5, 0) => [Cell(0, 0), Cell(0, 1), Cell(1, 1), Cell(2, 1)]
    case (5, 1) => [Cell(1, 0), Cell(2, 0), Cell(1, 1), Cell(1, 2)]
    case (5, 2) => [Cell(0, 1), Cell(1, 1), Cell(2, 1), Cell(2, 2)]
    case (5, 3) => [Cell(1, 0), Cell(1, 1), Cell(0, 2), Cell(1, 2)]
    case (6, 0) => [Cell(2, 0), Cell(0, 1), Cell(1, 1), Cell(2, 1)]
    case (6, 1) => [Cell(1, 0), Cell(1, 1), Cell(1, 2), Cell(2, 2)]
    case (6, 2) => [Cell(0, 1), Cell(1, 1), Cell(2, 1), Cell(0, 2)]
    case _ => [Cell(0, 0), Cell(1, 0), Cell(1, 1), Cell(1, 2)]
  }

  /** Four different cells inside a four by four box. */
  lemma PieceShape(kind: nat, rot: nat)
    requires kind < 7 && rot < 4
    ensures var cs := PieceCells(kind, rot);
            && |cs| == 4
            && (forall i :: 0 <= i < 4 ==> 0 <= cs[i].x <= 3 && 0 <= cs[i].y <= 3)
            && (forall i, j :: 0 <= i < j < 4 ==> cs[i] != cs[j])
  {}

  /** A quarter turn to the right, in the smallest square that holds the piece flat: four cells wide for the bar, three
      for the others; the block does not turn. */
  function Turned(kind: nat, c: Cell): Cell {
    if kind == 0 then Cell(3 - c.y, c.x) else if kind == 1 then c else Cell(2 - c.y, c.x)
  }

  /** Each rotation is the quarter turn of the one before, and four of them come back to the start. */
  lemma QuarterTurn(kind: nat, rot: nat)
    requires kind < 7 && rot < 4
    ensures var cs, next := PieceCells(kind, rot), PieceCells(kind, (rot + 1) % 4);
            forall i :: 0 <= i < 4 ==> Turned(kind, cs[i]) in next
  {}

  predicate Touch(a: Cell, b: Cell) {
    (a.x == b.x && (a.y == b.y + 1 || b.y == a.y + 1)) || (a.y == b.y && (a.x == b.x + 1 || b.x == a.x + 1))
  }

  function One(b: bool): nat {
    if b then 1 else 0
  }

  /** How many pairs of cells touch; four cells hang together if at least three do. */
  function Touching(cs: seq<Cell>): nat
    requires |cs| == 4
  {
    One(Touch(cs[0], cs[1])) + One(Touch(cs[0], cs[2])) + One(Touch(cs[0], cs[3]))
    + One(Touch(cs[1], cs[2])) + One(Touch(cs[1], cs[3])) + One(Touch(cs[2], cs[3]))
  }

  /** The cells of every piece hang together. */
  lemma PieceConnected(kind: nat, rot: nat)
    requires kind < 7 && rot < 4
    ensures |PieceCells(kind, rot)| == 4 && Touching(PieceCells(kind, rot)) >= 3
  {
    hide PieceCells;
    if rot < 2 {
      FirstConnected(kind, rot);
    } else {
      OthersConnected(kind, rot);
    }
  }

  lemma FirstConnected(kind: nat, rot: nat)
    requires kind < 7 && rot < 2
    ensures |PieceCells(kind, rot)| == 4 && Touching(PieceCells(kind, rot)) >= 3
  {}

  lemma OthersConnected(kind: nat, rot: nat)
    requires kind < 7 && 2 <= rot < 4
    ensures |PieceCells(kind, rot)| == 4 && Touching(PieceCells(kind, rot)) >= 3
  {}

  // ---------------------------------------------------------------- boards

  ghost predicate ValidBoard(b: Board) {
    |b| == HEIGHT && forall y :: 0 <= y < HEIGHT ==> |b[y]| == WIDTH
  }

  function EmptyRow(): Row {
    seq(WIDTH, _ => 0)
  }

  function EmptyRows(n: nat): (r: seq<Row>)
    ensures |r| == n
  {
    seq(n, _ => EmptyRow())
  }

  predicate Full(r: Row) {
    forall x :: 0 <= x < |r| ==> r[x] != 0
  }

  function RowFilled(r: Row): nat {
    if r == [] then 0 else (if r[0] != 0 then 1 else 0) + RowFilled(r[1..])
  }

  /** Occupied cells of some rows. */
  function Filled(rows: seq<Row>): nat {
    if rows == [] then 0 else RowFilled(rows[0]) + Filled(rows[1..])
  }

  function FullCount(rows: seq<Row>): nat {
    if rows == [] then 0 else (if Full(rows[0]) then 1 else 0) + FullCount(rows[1..])
  }

  /** The rows that are not full, in order. */
  function Kept(rows: seq<Row>): (r: seq<Row>)
    ensures |r| == |rows| - FullCount(rows)
    ensures forall k :: 0 <= k < |r| ==> r[k] in rows && !Full(r[k])
  {
    if rows == [] then []
    else if Full(rows[0]) then Kept(rows[1..]) else [rows[0]] + Kept(rows[1..])
  }

  /** Clearing lines drops the other rows to the bottom, below fresh empty ones. */
  function ClearRows(b: Board): (r: Board)
    requires |b| == HEIGHT
    ensures |r| == HEIGHT
  {
    EmptyRows(FullCount(b)) + Kept(b)
  }

  predicate Occupied(b: Board, x: int, y: int)
    requires |b| == HEIGHT && 0 <= y < HEIGHT && |b[y]| == WIDTH && 0 <= x < WIDTH
  {
    b[y][x] != 0
  }

  /** A cell of the piece is off the board or on an occupied cell; above the board is free. */
  predicate CellBlocked(b: Board, c: Cell)
    requires |b| == HEIGHT && forall y :: 0 <= y < HEIGHT ==> |b[y]| == WIDTH
  {
    c.x < 0 || c.x >= WIDTH || c.y >= HEIGHT || (c.y >= 0 && Occupied(b, c.x, c.y))
  }

  function Moved(c: Cell, x: int, y: int): Cell {
    Cell(x + c.x, y + c.y)
  }

  predicate Collides(b: Board, kind: nat, x: int, y: int, rot: nat)
    requires |b| == HEIGHT && forall y :: 0 <= y < HEIGHT ==> |b[y]| == WIDTH
    requires kind < 7 && rot < 4
  {
    exists i :: 0 <= i < |PieceCells(kind, rot)| && CellBlocked(b, Moved(PieceCells(kind, rot)[i], x, y))
  }

  function SetCell(b: Board, x: nat, y: nat, v: nat): (r: Board)
    requires |b| == HEIGHT && y < HEIGHT && x < |b[y]|
    ensures |r| == HEIGHT
  {
    var row: Row := b[y];
    b[y := row[x := v]]
  }

  /** Writes v to the given cells that are on the board. */
  function Paint(b: Board, cells: seq<Cell>, x: int, y: int, v: nat): (r: Board)
    requires |b| == HEIGHT && forall y :: 0 <= y < HEIGHT ==> |b[y]| == WIDTH
    ensures |r| == HEIGHT && forall y :: 0 <= y < HEIGHT ==> |r[y]| == WIDTH
    decreases |cells|
  {
    if cells == [] then b
    else
      var c := Moved(cells[0], x, y);
      Paint(if 0 <= c.x < WIDTH && 0 <= c.y < HEIGHT then SetCell(b, c.x, c.y, v) else b, cells[1..], x, y, v)
  }

  // ---------------------------------------------------------------- counting

  lemma {:induction false} RowFilledUpdate(r: Row, x: nat, v: nat)
    requires x < |r| && r[x] == 0 && v != 0
    ensures RowFilled(r[x := v]) == RowFilled(r) + 1
  {
    if x == 0 {
      assert r[0 := v][1..] == r[1..];
    } else {
      RowFilledUpdate(r[1..], x - 1, v);
      assert r[x := v][1..] == r[1..][x - 1 := v];
    }
  }

  lemma {:induction false} RowUpdate(rows: seq<Row>, y: nat, r: Row)
    requires y < |rows|
    ensures Filled(rows[y := r]) == Filled(rows) - RowFilled(rows[y]) + RowFilled(r)
    ensures FullCount(rows[y := r]) <= FullCount(rows) + 1
  {
    if y == 0 {
      assert rows[0 := r][1..] == rows[1..];
    } else {
      RowUpdate(rows[1..], y - 1, r);
      assert rows[y := r][1..] == rows[1..][y - 1 := r];
    }
  }

  /** Painting distinct empty cells of the board fills as many, in at most as many rows. */
  lemma {:induction false} PaintFills(b: Board, cells: seq<Cell>, x: int, y: int, v: nat)
    requires ValidBoard(b) && v != 0
    requires forall i :: 0 <= i < |cells| ==> var c := Moved(cells[i], x, y); c.y >= 0 && !CellBlocked(b, c)
    requires forall i, j :: 0 <= i < j < |cells| ==> cells[i] != cells[j]
    ensures Filled(Paint(b, cells, x, y, v)) == Filled(b) + |cells|
    ensures FullCount(Paint(b, cells, x, y, v)) <= FullCount(b) + |cells|
    decreases |cells|
  {
    if cells != [] {
      var c := Moved(cells[0], x, y);
      var next := SetCell(b, c.x, c.y, v);
      RowFilledUpdate(b[c.y], c.x, v);
      RowUpdate(b, c.y, b[c.y][c.x := v]);
      forall i | 0 <= i < |cells[1..]|
        ensures var d := Moved(cells[1..][i], x, y); d.y >= 0 && !CellBlocked(next, d)
      {
        assert cells[1..][i] == cells[i + 1] != cells[0];
      }
      PaintFills(next, cells[1..], x, y, v);
    }
  }

  lemma {:induction false} RowFilledFull(r: Row)
    requires Full(r)
    ensures RowFilled(r) == |r|
  {
    if r != [] {
      RowFilledFull(r[1..]);
    }
  }

  lemma {:induction false} RowFilledZero(r: Row)
    requires forall x :: 0 <= x < |r| ==> r[x] == 0
    ensures RowFilled(r) == 0
  {
    if r != [] {
      RowFilledZero(r[1..]);
    }
  }

  lemma {:induction false} KeptFills(rows: seq<Row>)
    requires forall k :: 0 <= k < |rows| ==> |rows[k]| == WIDTH
    ensures Filled(Kept(rows)) == Filled(rows) - WIDTH * FullCount(rows)
  {
    if rows != [] {
      KeptFills(rows[1..]);
      if Full(rows[0]) {
        RowFilledFull(rows[0]);
      } else {
        assert Kept(rows)[1..] == Kept(rows[1..]);
      }
    }
  }

  lemma {:induction false} FilledConcat(a: seq<Row>, b: seq<Row>)
    ensures Filled(a + b) == Filled(a) + Filled(b)
    ensures FullCount(a + b) == FullCount(a) + FullCount(b)
  {
    hide Full, RowFilled;
    if a == [] {
      assert a + b == b;
    } else {
      FilledConcat(a[1..], b);
      assert (a + b)[1..] == a[1..] + b;
    }
  }

  lemma {:induction false} KeptConcat(a: seq<Row>, b: seq<Row>)
    ensures Kept(a + b) == Kept(a) + Kept(b)
  {
    hide Kept;
    if a == [] {
      assert a + b == b && Kept(a) == [] by { KeptNone(); }
    } else {
      KeptConcat(a[1..], b);
      KeptFirst(a[0], a[1..]);
      KeptFirst(a[0], a[1..] + b);
      assert a == [a[0]] + a[1..] && a + b == [a[0]] + (a[1..] + b);
    }
  }

  lemma KeptNone()
    ensures Kept([]) == []
  {}

  lemma KeptFirst(r: Row, rest: seq<Row>)
    ensures Kept([r] + rest) == (if Full(r) then [] else [r]) + Kept(rest)
  {
    hide Full;
    assert ([r] + rest)[1..] == rest;
  }

  /** Taking a full row out and putting an empty one on top changes neither what clearing leads to nor
      the total of rows cleared and rows to clear. */
  lemma RemoveFullRow(b: Board, y: nat)
    requires ValidBoard(b) && y < HEIGHT && Full(b[y])
    ensures var c := [EmptyRow()] + b[..y] + b[y + 1..];
            && ValidBoard(c) && FullCount(c) == FullCount(b) - 1 && ClearRows(c) == ClearRows(b)
  {
    hide Full, Filled, Kept, FullCount, EmptyRows;
    Removed(b[..y], b[y], b[y + 1..]);
    assert b == b[..y] + [b[y]] + b[y + 1..];
    EmptyRowsExtend(FullCount(b), Kept(b));
  }

  lemma EmptyRowsExtend(n: nat, rest: seq<Row>)
    requires n > 0
    ensures EmptyRows(n) + rest == EmptyRows(n - 1) + ([EmptyRow()] + rest)
  {}

  lemma Removed(above: seq<Row>, full: Row, below: seq<Row>)
    requires Full(full)
    ensures FullCount(above + [full] + below) == FullCount([EmptyRow()] + above + below) + 1
    ensures Kept([EmptyRow()] + above + below) == [EmptyRow()] + Kept(above + [full] + below)
  {
    hide Full, Filled, Kept, FullCount, EmptyRows;
    var empty := EmptyRow();
    EmptyNotFull();
    assert above + [full] + below == above + ([full] + below) && [empty] + above + below == [empty] + (above + below);
    FilledConcat(above, [full] + below);
    KeptConcat(above, [full] + below);
    OneRow(full, below);
    FilledConcat(above, below);
    KeptConcat(above, below);
    OneRow(empty, above + below);
  }

  lemma EmptyNotFull()
    ensures !Full(EmptyRow())
  {
    assert EmptyRow()[0] == 0;
  }

  lemma OneRow(r: Row, rest: seq<Row>)
    ensures FullCount([r] + rest) == (if Full(r) then 1 else 0) + FullCount(rest)
    ensures Kept([r] + rest) == (if Full(r) then [] else [r]) + Kept(rest)
  {
    hide Full;
    KeptFirst(r, rest);
    assert ([r] + rest)[1..] == rest;
  }

  lemma {:induction false} EmptyRowsCount(n: nat)
    ensures Filled(EmptyRows(n)) == 0 && FullCount(EmptyRows(n)) == 0
  {
    if n > 0 {
      EmptyRowsCount(n - 1);
      assert EmptyRows(n)[1..] == EmptyRows(n - 1);
      RowFilledZero(EmptyRow());
      assert EmptyRow()[0] == 0;
    }
  }

  lemma {:induction false} NoneFull(rows: seq<Row>)
    ensures FullCount(rows) == 0 <==> forall k :: 0 <= k < |rows| ==> !Full(rows[k])
    ensures FullCount(rows) == 0 ==> Kept(rows) == rows
  {
    if rows != [] {
      NoneFull(rows[1..]);
      assert forall k :: 0 < k < |rows| ==> rows[k] == rows[1..][k - 1];
      assert forall k :: 0 <= k < |rows[1..]| ==> rows[1..][k] == rows[k + 1];
    }
  }

  /** Clearing leaves no full row and removes ten cells for each. */
  lemma ClearRowsCounts(b: Board)
    requires ValidBoard(b)
    ensures ValidBoard(ClearRows(b)) && FullCount(ClearRows(b)) == 0
    ensures Filled(ClearRows(b)) == Filled(b) - WIDTH * FullCount(b)
  {
    var n := FullCount(b);
    KeptFills(b);
    EmptyRowsCount(n);
    FilledConcat(EmptyRows(n), Kept(b));
    NoneFull(Kept(b));
  }

  // ---------------------------------------------------------------- the game

  datatype Game = Game(
    board: Board, kind: nat, rot: nat, x: int, y: int, next: nat, frame: nat, lines: nat, score: nat,
    over: bool, paused: bool, rng: nat)

  datatype Event = Left | Right | Rotate | SoftDrop | HardDrop | Restart | Pause | Frame | Ignored

  ghost predicate WellFormed(g: Game) {
    ValidBoard(g.board) && g.kind < 7 && g.rot < 4 && g.next < 7
  }

  /** In a game that is not over the piece lies on the board over empty cells. */
  ghost predicate PieceFree(g: Game)
    requires WellFormed(g)
  {
    !g.over ==> g.y >= 0 && !Collides(g.board, g.kind, g.x, g.y, g.rot)
  }

  ghost predicate Playable(g: Game) {
    WellFormed(g) && PieceFree(g) && forall y :: 0 <= y < HEIGHT ==> !Full(g.board[y])
  }

  function RngNext(rng: nat): nat {
    (rng * 1664525 + 1013904223) % TWO_TO_32
  }

  /** The next piece appears at the top; the game is over when there is no room for it. */
  ghost function Spawn(g: Game): (r: Game)
    requires WellFormed(g)
    ensures WellFormed(r)
  {
    var rng := RngNext(g.rng);
    var s := g.(kind := g.next, next := rng % 7, rng := rng, rot := 0, x := 3, y := 0);
    if Collides(s.board, s.kind, 3, 0, 0) then s.(over := true) else s
  }

  ghost function NewGame(): (r: Game)
    ensures WellFormed(r)
  {
    var rng := RngNext(0x4B1D1234);
    Spawn(Game(EmptyRows(HEIGHT), 0, 0, 0, 0, rng % 7, 0, 0, 0, false, false, rng))
  }

  ghost function Locked(g: Game): (r: Board)
    requires WellFormed(g)
    ensures ValidBoard(r)
  {
    Paint(g.board, PieceCells(g.kind, g.rot), g.x, g.y, g.kind + 1)
  }

  /** Points for clearing some lines at once. */
  function LineScore(cleared: nat): nat
    requires cleared <= 4
  {
    match cleared
    case 0 => 0 case 1 => 100 case 2 => 300 case 3 => 500 case _ => 800
  }

  /** Locks the piece, clears lines, and brings in the next piece. */
  ghost function Settle(g: Game): (r: Game)
    requires WellFormed(g) && FullCount(Locked(g)) <= 4
    ensures WellFormed(r)
  {
    var b := Locked(g);
    var cleared := FullCount(b);
    ClearRowsCounts(b);
    Spawn(g.(board := ClearRows(b), lines := g.lines + cleared, score := g.score + LineScore(cleared)))
  }

  ghost predicate Hits(g: Game, dx: int, dy: int, rot: nat)
    requires WellFormed(g) && rot < 4
  {
    Collides(g.board, g.kind, g.x + dx, g.y + dy, rot)
  }

  ghost function TryMove(g: Game, dx: int): Game
    requires WellFormed(g)
  {
    if Hits(g, dx, 0, g.rot) then g else g.(x := g.x + dx)
  }

  /** Turns the piece where it is, or one to the left, or one to the right. */
  ghost function TryRotate(g: Game): Game
    requires WellFormed(g)
  {
    var rot := (g.rot + 1) % 4;
    if !Hits(g, 0, 0, rot) then g.(rot := rot)
    else if !Hits(g, -1, 0, rot) then g.(x := g.x - 1, rot := rot)
    else if !Hits(g, 1, 0, rot) then g.(x := g.x + 1, rot := rot)
    else g
  }

  /** Falls by one row for a bonus, or comes to rest. */
  ghost function Fall(g: Game, bonus: nat): (r: Game)
    requires WellFormed(g) && FullCount(Locked(g)) <= 4
    ensures WellFormed(r)
  {
    if Hits(g, 0, 1, g.rot) then Settle(g) else g.(y := g.y + 1, score := g.score + bonus)
  }

  /** Below the floor every position collides, so the piece can fall only so far. */
  lemma PieceAboveFloor(b: Board, kind: nat, x: int, y: int, rot: nat)
    requires ValidBoard(b) && kind < 7 && rot < 4 && !Collides(b, kind, x, y, rot)
    ensures y < HEIGHT
  {
    PieceShape(kind, rot);
    var cells := PieceCells(kind, rot);
    assert !CellBlocked(b, Moved(cells[0], x, y));
  }

  /** The piece one row above where it cannot fall further, with two points for every row. */
  ghost function Dropped(g: Game): (r: Game)
    requires WellFormed(g)
    ensures WellFormed(r)
    decreases HEIGHT - g.y
  {
    if Hits(g, 0, 1, g.rot) then g
    else
      PieceAboveFloor(g.board, g.kind, g.x, g.y + 1, g.rot);
      Dropped(g.(y := g.y + 1, score := g.score + 2))
  }

  lemma DroppedStep(g: Game, drop: nat)
    requires WellFormed(g)
    ensures Hits(g, 0, 1, g.rot) ==> Dropped(g.(score := g.score + drop * 2)) == g.(score := g.score + drop * 2)
    ensures !Hits(g, 0, 1, g.rot) ==> g.y + 1 < HEIGHT
    ensures !Hits(g, 0, 1, g.rot) ==>
      Dropped(g.(score := g.score + drop * 2)) == Dropped(g.(y := g.y + 1, score := g.score + (drop + 1) * 2))
  {
    hide Collides;
    if !Hits(g, 0, 1, g.rot) {
      PieceAboveFloor(g.board, g.kind, g.x, g.y + 1, g.rot);
    }
  }

  function DropInterval(lines: nat): nat {
    var level := if lines / 10 > 12 then 12 else lines / 10;
    if 34 - level * 2 < 7 then 7 else 34 - level * 2
  }

  /** Locking fills four cells and completes at most four rows, so the score table has an entry. */
  lemma LockCounts(g: Game)
    requires Playable(g) && !g.over
    ensures Filled(Locked(g)) == Filled(g.board) + 4 && FullCount(Locked(g)) <= 4
  {
    hide PieceCells, Paint, Filled, FullCount, Full;
    PieceShape(g.kind, g.rot);
    NoneFull(g.board);
    PaintFills(g.board, PieceCells(g.kind, g.rot), g.x, g.y, g.kind + 1);
  }

  lemma SpawnKeeps(g: Game)
    requires WellFormed(g) && !g.over && FullCount(g.board) == 0
    ensures Playable(Spawn(g))
  {
    NoneFull(g.board);
  }

  lemma SettleKeeps(g: Game)
    requires Playable(g) && !g.over
    ensures FullCount(Locked(g)) <= 4
    ensures var r := Settle(g);
            && Playable(r)
            && Filled(r.board) + WIDTH * r.lines == Filled(g.board) + WIDTH * g.lines + 4
  {
    LockCounts(g);
    var b := Locked(g);
    ClearRowsCounts(b);
    var cleared := FullCount(b);
    SpawnKeeps(g.(board := ClearRows(b), lines := g.lines + cleared, score := g.score + LineScore(cleared)));
  }

  lemma {:induction false} DropKeeps(g: Game)
    requires Playable(g) && !g.over
    ensures var d := Dropped(g);
            && Playable(d) && !d.over && Hits(d, 0, 1, d.rot)
            && d.board == g.board && d.lines == g.lines
    decreases HEIGHT - g.y
  {
    hide Collides, Full, PieceCells;
    if !Hits(g, 0, 1, g.rot) {
      PieceAboveFloor(g.board, g.kind, g.x, g.y + 1, g.rot);
      DropKeeps(g.(y := g.y + 1, score := g.score + 2));
    }
  }

  lemma NewGameKeeps()
    ensures var g := NewGame(); Playable(g) && !g.over && g.lines == 0 && Filled(g.board) == 0
  {
    var b := EmptyRows(HEIGHT);
    EmptyRowsCount(HEIGHT);
    NoneFull(b);
    var kind := RngNext(0x4B1D1234) % 7;
    PieceShape(kind, 0);
    assert !Collides(b, kind, 3, 0, 0);
  }

  // ---------------------------------------------------------------- events

  ghost predicate Active(g: Game) {
    !g.paused && !g.over
  }

  /** What an event does; all but restart and pause are ignored while paused or over. */
  ghost function Step(g: Game, e: Event): (r: Game)
    requires Playable(g)
    ensures WellFormed(r)
  {
    if e.Restart? then NewGame()
    else if e.Pause? then g.(paused := !g.paused)
    else if !Active(g) then g
    else
      match e
      case Left => TryMove(g, -1)
      case Right => TryMove(g, 1)
      case Rotate => TryRotate(g)
      case SoftDrop => LockCounts(g); Fall(g, 1)
      case HardDrop => DropKeeps(g); LockCounts(Dropped(g)); Settle(Dropped(g))
      case Frame =>
        if g.frame + 1 >= DropInterval(g.lines) then
          LockCounts(g.(frame := 0)); Fall(g.(frame := 0), 0)
        else g.(frame := g.frame + 1)
      case _ => g
  }

  /** The event locks the piece. */
  ghost predicate Locks(g: Game, e: Event)
    requires WellFormed(g)
  {
    Active(g)
    && (e.HardDrop? || ((e.SoftDrop? || (e.Frame? && g.frame + 1 >= DropInterval(g.lines))) && Hits(g, 0, 1, g.rot)))
  }

  /** Every event keeps the invariant; only locking a piece changes the balance of cells. */
  lemma StepKeeps(g: Game, e: Event)
    requires Playable(g)
    ensures Playable(Step(g, e))
    ensures !e.Restart? ==>
      var r := Step(g, e);
      Filled(r.board) + WIDTH * r.lines == Filled(g.board) + WIDTH * g.lines + if Locks(g, e) then 4 else 0
  {
    hide NewGame, Settle, Locked, Filled, FullCount, PieceCells, Full, Dropped, Paint;
    NewGameKeeps();
    if !e.Restart? && !e.Pause? && Active(g) {
      match e
      case SoftDrop => SettleKeeps(g);
      case HardDrop => DropKeeps(g); SettleKeeps(Dropped(g));
      case Frame => SettleKeeps(g.(frame := 0));
      case _ =>
    }
  }

  /** The state after some events from a new game. */
  ghost function Run(events: seq<Event>): (g: Game)
    ensures Playable(g)
    decreases |events|
  {
    NewGameKeeps();
    if events == [] then NewGame()
    else
      var g := Run(events[..|events| - 1]);
      StepKeeps(g, events[|events| - 1]);
      Step(g, events[|events| - 1])
  }

  /** How many pieces were locked since the game was last started. */
  ghost function PiecesLocked(events: seq<Event>): nat
    decreases |events|
  {
    if events == [] then 0
    else
      var before := events[..|events| - 1];
      var e := events[|events| - 1];
      if e.Restart? then 0 else PiecesLocked(before) + if Locks(Run(before), e) then 1 else 0
  }

  /** After every run of events no row is full, a piece still in play lies over empty cells, and the
      board holds four cells for each piece locked less ten for each line cleared. */
  lemma {:induction false} EveryRun(events: seq<Event>)
    ensures var g := Run(events);
            && (forall y :: 0 <= y < HEIGHT ==> !Full(g.board[y]))
            && (!g.over ==> g.y >= 0 && !Collides(g.board, g.kind, g.x, g.y, g.rot))
            && Filled(g.board) == 4 * PiecesLocked(events) - WIDTH * g.lines
    decreases |events|
  {
    hide NewGame, Full, Filled, Collides, Locks;
    NewGameKeeps();
    if events != [] {
      var before := events[..|events| - 1];
      EveryRun(before);
      StepKeeps(Run(before), events[|events| - 1]);
    }
  }
}
