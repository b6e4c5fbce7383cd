/** Tetris pieces and the game loop over any sequence of inputs. */
module TetrisGame {
  import opened Basics
  import opened TetrisGrid

  // ---------------------------------------------------------------- pieces

  datatype Piece = Piece(x: int, y: int, shape: nat, rot: nat, color: nat)

  datatype Offset = At(x: nat, y: nat)

  function Corners(a: nat, b: nat, c: nat, d: nat, e: nat, f: nat, g: nat, h: nat): (s: seq<Offset>)
    ensures |s| == 4
  {
    [At(a, b), At(c, d), At(e, f), At(g, h)]
  }

  /** The shape tables; an unknown shape is the square. */
  function Offsets(shape: nat, rot: nat): (s: seq<Offset>)
    ensures |s| == 4
  {
    match (shape, rot % 4)
    case (1, 0) => Corners(0, 1, 1, 1, 2, 1, 1, 0)
    case (1, 1) => Corners(1, 0, 1, 1, 1, 2, 0, 1)
    case (1, 2) => Corners(0, 0, 1, 0, 2, 0, 1, 1)
    case (1, 3) => Corners(0, 0, 0, 1, 0, 2, 1, 1)
    case (2, 0) => Corners(0, 0, 1, 0, 2, 0, 3, 0)
    case (2, 1) => Corners(0, 0, 0, 1, 0, 2, 0, 3)
    case (2, 2) => Corners(0, 0, 1, 0, 2, 0, 3, 0)
    case (2, 3) => Corners(0, 0, 0, 1, 0, 2, 0, 3)
    case (3, 0) => Corners(0, 0, 0, 1, 1, 0, 2, 0)
    case (3, 1) => Corners(0, 0, 1, 0, 1, 1, 1, 2)
    case (3, 2) => Corners(0, 1, 1, 1, 2, 1, 2, 0)
    case (3, 3) => Corners(0, 0, 0, 1, 0, 2, 1, 2)
    case (4, 0) => Corners(0, 0, 1, 0, 2, 0, 2, 1)
    case (4, 1) => Corners(0, 2, 1, 0, 1, 1, 1, 2)
    case (4, 2) => Corners(0, 0, 0, 1, 1, 1, 2, 1)
    case (4, 3) => Corners(0, 0, 0, 1, 0, 2, 1, 0)
    case (5, 0) => Corners(0, 0, 1, 0, 1, 1, 2, 1)
    case (5, 1) => Corners(0, 1, 0, 2, 1, 0, 1, 1)
    case (5, 2) => Corners(0, 0, 1, 0, 1, 1, 2, 1)
    case (5, 3) => Corners(0, 1, 0, 2, 1, 0, 1, 1)
    case (6, 0) => Corners(0, 1, 1, 1, 1, 0, 2, 0)
    case (6, 1) => Corners(0, 0, 0, 1, 1, 1, 1, 2)
    case (6, 2) => Corners(0, 1, 1, 1, 1, 0, 2, 0)
    case (6, 3) => Corners(0, 0, 0, 1, 1, 1, 1, 2)
    case _ => Corners(0, 0, 1, 0, 0, 1, 1, 1)
  }

  function Rotations(shape: nat): (n: nat)
    ensures 0 < n <= 4
  {
    match shape
    case 1 => 4 case 2 => 2 case 3 => 4 case 4 => 4 case 5 => 2 case 6 => 2 case _ => 1
  }

  /** Width and height of the unrotated shape. */
  function Width(shape: nat): nat { if shape == 0 || shape >= 7 then 2 else if shape == 2 then 4 else 3 }
  function Height(shape: nat): nat { if shape == 2 then 1 else 2 }

  function Color(shape: nat): nat
    requires shape < 7
  {
    [2, 3, 1, 6, 7, 4, 5][shape]
  }

  lemma OffsetsFit(shape: nat, rot: nat)
    ensures forall i | 0 <= i < 4 :: Offsets(shape, rot)[i].x < 4 && Offsets(shape, rot)[i].y < 4
    ensures forall i, j | 0 <= i < j < 4 :: Offsets(shape, rot)[i] != Offsets(shape, rot)[j]
  {
  }

  /** The unrotated shape fits its stated size. */
  lemma UnrotatedFits(shape: nat)
    ensures forall i | 0 <= i < 4 ::
              Offsets(shape, 0)[i].x < Width(shape) && Offsets(shape, 0)[i].y < Height(shape)
  {
  }

  function CellX(p: Piece, i: nat): int
    requires i < 4
  {
    p.x + Offsets(p.shape, p.rot)[i].x
  }

  function CellY(p: Piece, i: nat): int
    requires i < 4
  {
    p.y + Offsets(p.shape, p.rot)[i].y
  }

  /** Beyond a side or the floor, or on a filled cell; above the top nothing is hit. */
  predicate Hits(b: seq<Row>, x: int, y: int) {
    x < 0 || x >= WIDTH || y < 0 || (y < |b| && b[y][x].filled)
  }

  predicate Collides(b: seq<Row>, p: Piece) {
    exists i | 0 <= i < 4 :: Hits(b, CellX(p, i), CellY(p, i))
  }

  // ---------------------------------------------------------------- moving

  datatype Direction = Down | Left | Up | Right

  function Shifted(p: Piece, d: Direction): Piece {
    match d
    case Left => p.(x := p.x - 1)
    case Right => p.(x := p.x + 1)
    case Down => p.(y := p.y - 1)
    case Up => p.(y := p.y + 1)
  }

  function Move(b: seq<Row>, p: Piece, d: Direction): Piece {
    if Collides(b, Shifted(p, d)) then p else Shifted(p, d)
  }

  /** The next rotation, if need be one column to the left or to the right. */
  function Rotate(b: seq<Row>, p: Piece): Piece {
    var n := Rotations(p.shape);
    var q := p.(rot := (p.rot + 1 + n) % n);
    if !Collides(b, q) then q
    else if !Collides(b, q.(x := p.x - 1)) then q.(x := p.x - 1)
    else if !Collides(b, q.(x := p.x + 1)) then q.(x := p.x + 1)
    else p
  }

  function Drop(b: seq<Row>, p: Piece): (q: Piece)
    ensures q == p.(y := q.y) && q.y <= p.y
    decreases if p.y > -4 then p.y + 4 else 0
  {
    var below := p.(y := p.y - 1);
    if Collides(b, below) then p
    else
      assert !Hits(b, CellX(below, 0), CellY(below, 0));
      OffsetsFit(p.shape, p.rot);
      Drop(b, below)
  }

  /** A dropped piece passed only through free places, and rests. */
  lemma {:induction false} DropRests(b: seq<Row>, p: Piece, y: int)
    requires !Collides(b, p)
    ensures !Collides(b, Drop(b, p)) && Collides(b, Shifted(Drop(b, p), Down))
    ensures Drop(b, p).y <= y <= p.y ==> !Collides(b, p.(y := y))
    decreases if p.y > -4 then p.y + 4 else 0
  {
    var below := p.(y := p.y - 1);
    if !Collides(b, below) {
      assert !Hits(b, CellX(below, 0), CellY(below, 0));
      OffsetsFit(p.shape, p.rot);
      DropRests(b, below, y);
      if y == p.y { assert p.(y := y) == p; }
    } else {
      assert y == p.y ==> p.(y := y) == p;
    }
  }

  /** Moving, rotating and dropping never make a free piece collide. */
  lemma StaysFree(b: seq<Row>, p: Piece, d: Direction)
    requires !Collides(b, p)
    ensures !Collides(b, Move(b, p, d)) && !Collides(b, Rotate(b, p)) && !Collides(b, Drop(b, p))
  {
    DropRests(b, p, p.y);
  }

  /** The piece so many places further in a direction. */
  function Along(p: Piece, d: Direction, n: nat): Piece {
    match d
    case Left => p.(x := p.x - n)
    case Right => p.(x := p.x + n)
    case Down => p.(y := p.y - n)
    case Up => p.(y := p.y + n)
  }

  /** The same move asked for n times. */
  function Slide(b: seq<Row>, p: Piece, d: Direction, n: nat): Piece {
    if n == 0 then p else Move(b, Slide(b, p, d, n - 1), d)
  }

  /** A piece slides through free places only, and stops short of what was asked only in front of one that is not. */
  lemma {:induction false} SlideStops(b: seq<Row>, p: Piece, d: Direction, n: nat) returns (m: nat)
    ensures m <= n && Slide(b, p, d, n) == Along(p, d, m)
    ensures forall k | 1 <= k <= m :: !Collides(b, Along(p, d, k))
    ensures m < n ==> Collides(b, Along(p, d, m + 1))
    decreases n
  {
    if n == 0 {
      m := 0;
    } else {
      m := SlideStops(b, p, d, n - 1);
      assert Shifted(Along(p, d, m), d) == Along(p, d, m + 1);
      if !Collides(b, Along(p, d, m + 1)) {
        m := m + 1;
      }
    }
  }

  /** The places a slide may not reach are behind the first that is not free. */
  lemma SlideTo(b: seq<Row>, p: Piece, d: Direction, n: nat, m: nat)
    requires m <= n && (forall k | 1 <= k <= m :: !Collides(b, Along(p, d, k))) && (m < n ==> Collides(b, Along(p, d, m + 1)))
    ensures Slide(b, p, d, n) == Along(p, d, m)
  {
    var k := SlideStops(b, p, d, n);
    var next, last := Along(p, d, k + 1), Along(p, d, m + 1);
    assert k < m ==> !Collides(b, next);
    assert m < k ==> Collides(b, last);
  }

  /** Sliding n places to the left and n back returns a free piece exactly if all n were free, or it cannot go on to the right. */
  lemma SlideReturns(b: seq<Row>, p: Piece, n: nat)
    requires !Collides(b, p)
    ensures Slide(b, Slide(b, p, Left, n), Right, n) == p <==>
            (forall k | 1 <= k <= n :: !Collides(b, Along(p, Left, k))) || Collides(b, Along(p, Right, 1))
  {
    var m := SlideStops(b, p, Left, n);
    var q := Along(p, Left, m);
    forall k | 1 <= k <= m ensures !Collides(b, Along(q, Right, k)) {
      assert Along(q, Right, k) == if k == m then p else Along(p, Left, m - k);
    }
    if m == n {
      SlideTo(b, q, Right, n, m);
      assert Along(q, Right, m) == p;
    } else {
      assert Along(q, Right, m + 1) == Along(p, Right, 1);
      assert Collides(b, Along(p, Left, m + 1));
      if Collides(b, Along(p, Right, 1)) {
        SlideTo(b, q, Right, n, m);
        assert Along(q, Right, m) == p;
      } else {
        GoesPast(b, p, q, n, m);
      }
    }
  }

  lemma GoesPast(b: seq<Row>, p: Piece, q: Piece, n: nat, m: nat)
    requires m < n && q == Along(p, Left, m) && !Collides(b, Along(p, Right, 1))
    requires forall k | 1 <= k <= m :: !Collides(b, Along(q, Right, k))
    ensures Slide(b, q, Right, n) != p
  {
    var k := SlideStops(b, q, Right, n);
    assert Along(q, Right, m + 1) == Along(p, Right, 1);
  }

  lemma NextRotation(r: nat, n: nat)
    requires 0 < n <= 4
    ensures (r + 1 + n) % n == (r + 1) % n
  {
    if n == 1 {
    } else if n == 2 {
    } else if n == 3 {
    } else {
      assert n == 4;
    }
  }

  /** The next rotation, some columns aside. */
  function Turned(p: Piece, dx: int): Piece { p.(x := p.x + dx, rot := (p.rot + 1) % Rotations(p.shape)) }

  /**
    * A rotation succeeds if and only if one of the three places for the next rotation is free; the piece's own column comes
    * first and the left one before the right one.
    */
  lemma RotatesExactly(b: seq<Row>, p: Piece)
    ensures (forall dx | -1 <= dx <= 1 :: Collides(b, Turned(p, dx))) ==> Rotate(b, p) == p
    ensures (exists dx | -1 <= dx <= 1 :: !Collides(b, Turned(p, dx))) ==>
            exists dx | -1 <= dx <= 1 ::
              Rotate(b, p) == Turned(p, dx) && !Collides(b, Turned(p, dx))
              && (dx != 0 ==> Collides(b, Turned(p, 0))) && (dx == 1 ==> Collides(b, Turned(p, -1)))
  {
    NextRotation(p.rot, Rotations(p.shape));
    var q := p.(rot := (p.rot + 1) % Rotations(p.shape));
    assert Turned(p, 0) == q && Turned(p, -1) == q.(x := p.x - 1) && Turned(p, 1) == q.(x := p.x + 1);
  }

  /** Rotating n times. */
  function Spin(b: seq<Row>, p: Piece, n: nat): Piece {
    if n == 0 then p else Rotate(b, Spin(b, p, n - 1))
  }

  lemma RotateInPlace(b: seq<Row>, p: Piece)
    requires !Collides(b, Turned(p, 0))
    ensures Rotate(b, p) == Turned(p, 0) == p.(rot := (p.rot + 1) % Rotations(p.shape))
  {
    NextRotation(p.rot, Rotations(p.shape));
    assert Turned(p, 0) == p.(rot := (p.rot + 1) % Rotations(p.shape));
  }

  lemma {:induction false} SpinInPlace(b: seq<Row>, p: Piece, n: nat, m: nat)
    requires m == Rotations(p.shape) && p.rot < m && forall r | 0 <= r < m :: !Collides(b, p.(rot := r))
    ensures Spin(b, p, n) == p.(rot := (p.rot + n) % m)
    decreases n
  {
    if n > 0 {
      SpinInPlace(b, p, n - 1, m);
      var q := p.(rot := (p.rot + n - 1) % m);
      Successor(p.rot + n - 1, m);
      assert Turned(q, 0) == p.(rot := (p.rot + n) % m);
      RotateInPlace(b, q);
    }
  }

  lemma Successor(r: nat, n: nat)
    requires 0 < n <= 4
    ensures (r % n + 1) % n == (r + 1) % n
  {
    if n == 1 {
    } else if n == 2 {
    } else if n == 3 {
    } else {
      assert n == 4;
    }
  }

  /** With room for every rotation, turning a piece all the way round gives it back. */
  lemma FullTurn(b: seq<Row>, p: Piece)
    requires p.rot < Rotations(p.shape) && forall r | 0 <= r < Rotations(p.shape) :: !Collides(b, p.(rot := r))
    ensures Spin(b, p, Rotations(p.shape)) == p
  {
    var m := Rotations(p.shape);
    SpinInPlace(b, p, m, m);
    if m == 1 {
    } else if m == 2 {
    } else if m == 3 {
    } else {
      assert m == 4;
    }
  }

  // ---------------------------------------------------------------- locking

  /** Fills the first n cells of a piece, those inside the grid. */
  function Locked(b: seq<Row>, p: Piece, n: nat): (c: seq<Row>)
    requires n <= 4
    ensures |c| == |b|
  {
    if n == 0 then b else SetCell(Locked(b, p, n - 1), CellX(p, n - 1), CellY(p, n - 1), p.color)
  }

  /** How many of a piece's first n cells are inside the grid. */
  function Inside(p: Piece, n: nat): nat
    requires n <= 4
  {
    if n == 0 then 0
    else Inside(p, n - 1) + if 0 <= CellX(p, n - 1) < WIDTH && 0 <= CellY(p, n - 1) < HEIGHT then 1 else 0
  }

  lemma CellsApart(p: Piece, i: nat, j: nat)
    requires i < j < 4
    ensures CellX(p, i) != CellX(p, j) || CellY(p, i) != CellY(p, j)
  {
    OffsetsFit(p.shape, p.rot);
  }

  /** Locking a free piece adds exactly its cells inside the grid. */
  lemma {:induction false} LockedCells(b: seq<Row>, p: Piece, n: nat, x: nat, y: nat)
    requires n <= 4 && x < WIDTH && y < |b|
    ensures Locked(b, p, n)[y][x] ==
            if exists i | 0 <= i < n :: CellX(p, i) == x && CellY(p, i) == y then Cell(true, p.color) else b[y][x]
  {
    if n > 0 {
      LockedCells(b, p, n - 1, x, y);
    }
  }

  lemma {:induction false} LockedFilled(b: seq<Row>, p: Piece, n: nat)
    requires n <= 4 && |b| == HEIGHT && !Collides(b, p)
    ensures Filled(Locked(b, p, n)) == Filled(b) + Inside(p, n)
  {
    if n > 0 {
      LockedFilled(b, p, n - 1);
      var x, y := CellX(p, n - 1), CellY(p, n - 1);
      assert !Hits(b, x, y);
      if y < HEIGHT {
        forall i | 0 <= i < n - 1 ensures !(CellX(p, i) == x && CellY(p, i) == y) {
          CellsApart(p, i, n - 1);
        }
        LockedCells(b, p, n - 1, x, y);
        SetCellFilled(Locked(b, p, n - 1), x, y, p.color);
      }
    }
  }

  lemma {:induction false} LockedPainted(b: seq<Row>, p: Piece, n: nat)
    requires n <= 4 && AllPainted(b) && p.color != 0
    ensures AllPainted(Locked(b, p, n))
  {
    if n > 0 {
      LockedPainted(b, p, n - 1);
      var x, y := CellX(p, n - 1), CellY(p, n - 1);
      if 0 <= x < WIDTH && 0 <= y < |b| {
        SetCellPainted(Locked(b, p, n - 1), x, y, p.color);
      }
    }
  }

  // ---------------------------------------------------------------- the grid with its counters

  /** `relief` is kept beside the rows; lines are counted in 16 bits, the score in 32, the level in 8. */
  datatype Grid = Grid(rows: seq<Row>, relief: seq<int>, lines: nat, score: nat, level: nat)

  function NewGrid(): Grid { Grid(EmptyRows(HEIGHT), seq(WIDTH, _ => -1), 0, 0, 1) }

  function Raise(relief: seq<int>, x: int, y: int): (r: seq<int>)
    requires |relief| == WIDTH
    ensures |r| == WIDTH
  {
    if 0 <= x < WIDTH && 0 <= y < HEIGHT && y > relief[x] then relief[x := y] else relief
  }

  function Relieved(relief: seq<int>, p: Piece, n: nat): (r: seq<int>)
    requires n <= 4 && |relief| == WIDTH
    ensures |r| == WIDTH
  {
    if n == 0 then relief else Raise(Relieved(relief, p, n - 1), CellX(p, n - 1), CellY(p, n - 1))
  }

  function Tops(b: seq<Row>): (r: seq<int>)
    ensures |r| == WIDTH
  {
    seq(WIDTH, x requires 0 <= x < WIDTH => Top(b, x, |b|))
  }

  function Reward(cleared: nat): nat
    requires cleared <= 4
  {
    [0, 40, 100, 300, 1200][cleared]
  }

  function Level(lines: nat): nat {
    var level := (1 + lines / 10) % 256;
    if level > 20 then 20 else level
  }

  /** Removes full rows; returns how many, capped at four. */
  function ClearLines(g: Grid): (Grid, nat) {
    var n := FullRows(g.rows);
    if n == 0 then (g, 0)
    else
      var lines := (g.lines + n) % 0x1_0000;
      (Grid(Cleared(g.rows), Tops(Cleared(g.rows)), lines,
            (g.score + Reward(Min(n, 4)) * g.level) % 0x1_0000_0000, Level(lines)),
       Min(n, 4))
  }

  function Add(g: Grid, p: Piece): Grid
    requires |g.relief| == WIDTH
  {
    g.(rows := Locked(g.rows, p, 4), relief := Relieved(g.relief, p, 4))
  }

  ghost predicate GridOk(g: Grid) {
    && |g.rows| == HEIGHT && |g.relief| == WIDTH
    && AllPainted(g.rows)
    && g.relief == Tops(g.rows)
  }

  lemma {:induction false} ReliefFollows(b: seq<Row>, p: Piece, n: nat)
    requires n <= 4 && |b| == HEIGHT
    ensures Relieved(Tops(b), p, n) == Tops(Locked(b, p, n))
  {
    if n > 0 {
      ReliefFollows(b, p, n - 1);
      var c, x, y := Locked(b, p, n - 1), CellX(p, n - 1), CellY(p, n - 1);
      if 0 <= x < WIDTH && 0 <= y < HEIGHT {
        forall z | 0 <= z < WIDTH ensures Tops(SetCell(c, x, y, p.color))[z] == Raise(Tops(c), x, y)[z] {
          TopAfterSet(c, x, y, p.color, z, HEIGHT);
        }
      }
      assert Tops(SetCell(c, x, y, p.color)) == Raise(Tops(c), x, y);
    }
  }

  /** What locking a free piece and clearing full rows leaves. */
  lemma LockSettles(g: Grid, p: Piece)
    requires GridOk(g) && !Collides(g.rows, p) && p.color != 0
    ensures var a := Add(g, p);
            var (c, _) := ClearLines(a);
            && GridOk(c) && Settled(c.rows)
            && Filled(c.rows) + 10 * FullRows(a.rows) == Filled(g.rows) + Inside(p, 4)
            && c.lines == (if FullRows(a.rows) == 0 then g.lines else (g.lines + FullRows(a.rows)) % 0x1_0000)
  {
    var a := Add(g, p);
    LockedFilled(g.rows, p, 4);
    LockedPainted(g.rows, p, 4);
    ReliefFollows(g.rows, p, 4);
    ClearedFilled(a.rows);
    ClearedSettles(a.rows);
    if FullRows(a.rows) == 0 {
      NoFullRows(a.rows);
    }
  }

  lemma {:induction false} NoFullRows(b: seq<Row>)
    requires FullRows(b) == 0
    ensures Settled(b)
  {
    if b != [] {
      NoFullRows(b[1..]);
      assert b == [b[0]] + b[1..];
    }
  }

  // ---------------------------------------------------------------- the game loop

  function Spawn(shape: nat): Piece
    requires shape < 7
  {
    Piece((WIDTH - Width(shape)) / 2, HEIGHT - Height(shape), shape, 0, Color(shape))
  }

  datatype Input = Nothing | MoveLeft | MoveRight | Turn | SoftDrop | HardDrop | Pause(quit: bool) | Quit

  /** One pass of the loop: what was read, and the shapes drawn if pieces lock. */
  datatype Event = Event(input: Input, first: nat, second: nat)

  datatype Game = Game(grid: Grid, current: Piece, next: Piece, over: bool, tick: nat, lastDrop: nat)

  /** A game with its history: cells locked inside the grid and rows cleared so far. */
  datatype Played = Played(game: Game, locked: nat, cleared: nat)

  const INTERVAL := 2

  function Start(first: nat, second: nat): Played
    requires first < 7 && second < 7
  {
    Played(Game(NewGrid(), Spawn(first), Spawn(second), false, 0, 0), 0, 0)
  }

  function Lock(h: Played, shape: nat): Played
    requires |h.game.grid.relief| == WIDTH && h.game.next.shape < 7 && shape < 7
  {
    var g := h.game;
    var added := Add(g.grid, g.current);
    var (grid, _) := ClearLines(added);
    var current := Spawn(g.next.shape);
    Played(g.(grid := grid, current := current, next := Spawn(shape),
              over := g.over || Collides(grid.rows, current)),
           h.locked + Inside(g.current, 4), h.cleared + FullRows(added.rows))
  }

  function Score(h: Played, bonus: nat): Played {
    h.(game := h.game.(grid := h.game.grid.(score := (h.game.grid.score + bonus) % 0x1_0000_0000)))
  }

  function DroppedNow(h: Played): Played { h.(game := h.game.(lastDrop := h.game.tick)) }

  function WithCurrent(h: Played, p: Piece): Played { h.(game := h.game.(current := p)) }

  /** One row down, or the piece locks. */
  function Descend(h: Played, shape: nat): Played
    requires |h.game.grid.relief| == WIDTH && h.game.next.shape < 7 && shape < 7
  {
    if Collides(h.game.grid.rows, Shifted(h.game.current, Down)) then Lock(h, shape)
    else WithCurrent(h, Shifted(h.game.current, Down))
  }

  function Respond(h: Played, e: Event): Played
    requires |h.game.grid.relief| == WIDTH && h.game.next.shape < 7 && e.first < 7
  {
    var b, p := h.game.grid.rows, h.game.current;
    match e.input
    case Nothing => h
    case MoveLeft => WithCurrent(h, Move(b, p, Left))
    case MoveRight => WithCurrent(h, Move(b, p, Right))
    case Turn => WithCurrent(h, Rotate(b, p))
    case SoftDrop => DroppedNow(Score(Descend(h, e.first), 1))
    case HardDrop =>
      var q := Drop(b, p);
      DroppedNow(Lock(Score(WithCurrent(h, q), 2 * (p.y - q.y)), e.first))
    case Pause(quit) => if quit then h.(game := h.game.(over := true)) else DroppedNow(h)
    case Quit => h.(game := h.game.(over := true))
  }

  function Ticked(h: Played): Played { h.(game := h.game.(tick := (h.game.tick + 1) % 0x1_0000_0000)) }

  /** The clock moves on, and every other tick the piece descends. */
  function Gravity(h: Played, shape: nat): Played
    requires |h.game.grid.relief| == WIDTH && h.game.next.shape < 7 && shape < 7
  {
    var later := Ticked(h);
    if (later.game.tick - later.game.lastDrop) % 0x1_0000_0000 >= INTERVAL
    then DroppedNow(Descend(later, shape)) else later
  }

  /** One pass of the loop; a game that is over stays as it is. */
  function Pass(h: Played, e: Event): Played
    requires |h.game.grid.relief| == WIDTH && h.game.next.shape < 7 && e.first < 7 && e.second < 7
  {
    if h.game.over then h
    else
      var responded := Respond(h, e);
      if responded.game.over then responded else Gravity(responded, e.second)
  }

  // ---------------------------------------------------------------- what every game keeps

  /** Rows, heights and colours agree, no row is full, and cells are accounted for. */
  ghost predicate Accounted(h: Played) {
    && GridOk(h.game.grid) && Settled(h.game.grid.rows)
    && Filled(h.game.grid.rows) + 10 * h.cleared == h.locked
    && h.game.grid.lines == h.cleared % 0x1_0000
  }

  ghost predicate Sound(h: Played) {
    && Accounted(h)
    && h.game.current.color != 0 && h.game.next.shape < 7
    && (!h.game.over ==> !Collides(h.game.grid.rows, h.game.current))
  }

  lemma SpawnsFree(shape: nat)
    requires shape < 7
    ensures !Collides(EmptyRows(HEIGHT), Spawn(shape)) && Spawn(shape).color != 0
  {
    UnrotatedFits(shape);
    assert !EmptyRow()[0].filled;
  }

  lemma StartSound(first: nat, second: nat)
    requires first < 7 && second < 7
    ensures Sound(Start(first, second))
  {
    SpawnsFree(first);
    forall x | 0 <= x < WIDTH ensures NewGrid().relief[x] == Tops(EmptyRows(HEIGHT))[x] {
      EmptyBoard(HEIGHT, x);
    }
    EmptyBoard(HEIGHT, 0);
  }

  lemma LineCount(cleared: nat, n: nat)
    ensures (cleared % 0x1_0000 + n) % 0x1_0000 == (cleared + n) % 0x1_0000
  {
  }

  lemma LockAccounted(h: Played, shape: nat)
    requires Accounted(h) && h.game.current.color != 0 && h.game.next.shape < 7 && shape < 7
    requires !Collides(h.game.grid.rows, h.game.current)
    ensures Accounted(Lock(h, shape))
  {
    var g := h.game;
    LockSettles(g.grid, g.current);
    LineCount(h.cleared, FullRows(Add(g.grid, g.current).rows));
  }

  lemma LockSound(h: Played, shape: nat)
    requires Accounted(h) && h.game.current.color != 0 && h.game.next.shape < 7 && shape < 7
    requires !Collides(h.game.grid.rows, h.game.current)
    ensures Sound(Lock(h, shape))
  {
    LockAccounted(h, shape);
    SpawnsFree(h.game.next.shape);
  }

  lemma DescendSound(h: Played, shape: nat)
    requires Sound(h) && !h.game.over && shape < 7
    ensures Sound(Descend(h, shape))
  {
    if Collides(h.game.grid.rows, Shifted(h.game.current, Down)) {
      LockSound(h, shape);
    }
  }

  lemma MoveSound(h: Played, q: Piece)
    requires Sound(h) && !Collides(h.game.grid.rows, q) && q.color == h.game.current.color
    ensures Sound(WithCurrent(h, q))
  {
  }

  lemma SoftDropSound(h: Played, shape: nat)
    requires Sound(h) && !h.game.over && shape < 7
    ensures Sound(DroppedNow(Score(Descend(h, shape), 1)))
  {
    DescendSound(h, shape);
  }

  lemma HardDropSound(h: Played, shape: nat)
    requires Sound(h) && !h.game.over && shape < 7
    ensures var q := Drop(h.game.grid.rows, h.game.current);
            Sound(DroppedNow(Lock(Score(WithCurrent(h, q), 2 * (h.game.current.y - q.y)), shape)))
  {
    var q := Drop(h.game.grid.rows, h.game.current);
    StaysFree(h.game.grid.rows, h.game.current, Down);
    LockSound(Score(WithCurrent(h, q), 2 * (h.game.current.y - q.y)), shape);
  }

  /** Pausing, quitting and doing nothing change only the clock fields and whether play continues. */
  lemma PauseSound(h: Played)
    requires Sound(h)
    ensures Sound(DroppedNow(h)) && Sound(h.(game := h.game.(over := true)))
  {
  }

  lemma SteerSound(h: Played)
    requires Sound(h) && !h.game.over
    ensures var b, p := h.game.grid.rows, h.game.current;
            && Sound(WithCurrent(h, Move(b, p, Left))) && Sound(WithCurrent(h, Move(b, p, Right)))
            && Sound(WithCurrent(h, Rotate(b, p)))
  {
    var b, p := h.game.grid.rows, h.game.current;
    StaysFree(b, p, Left);
    StaysFree(b, p, Right);
    MoveSound(h, Move(b, p, Left));
    MoveSound(h, Move(b, p, Right));
    MoveSound(h, Rotate(b, p));
  }

  lemma RespondSteers(h: Played, e: Event)
    requires Sound(h) && !h.game.over && e.first < 7 && (e.input.MoveLeft? || e.input.MoveRight? || e.input.Turn?)
    ensures Sound(Respond(h, e))
  {
    SteerSound(h);
  }

  lemma RespondPauses(h: Played, e: Event)
    requires Sound(h) && e.first < 7 && (e.input.Pause? || e.input.Quit? || e.input.Nothing?)
    ensures Sound(Respond(h, e))
  {
    PauseSound(h);
  }

  lemma RespondSoftly(h: Played, e: Event)
    requires Sound(h) && !h.game.over && e.first < 7 && e.input.SoftDrop?
    ensures Sound(Respond(h, e))
  {
    SoftDropSound(h, e.first);
  }

  lemma RespondHard(h: Played, e: Event)
    requires Sound(h) && !h.game.over && e.first < 7 && e.input.HardDrop?
    ensures Sound(Respond(h, e))
  {
    HardDropSound(h, e.first);
  }

  lemma RespondSound(h: Played, e: Event)
    requires Sound(h) && !h.game.over && e.first < 7
    ensures Sound(Respond(h, e))
  {
    if e.input.SoftDrop? {
      RespondSoftly(h, e);
    } else if e.input.HardDrop? {
      RespondHard(h, e);
    } else if e.input.Pause? || e.input.Quit? || e.input.Nothing? {
      RespondPauses(h, e);
    } else {
      RespondSteers(h, e);
    }
  }

  lemma GravitySound(h: Played, shape: nat)
    requires Sound(h) && !h.game.over && shape < 7
    ensures Sound(Gravity(h, shape))
  {
    assert Sound(Ticked(h));
    DescendSound(Ticked(h), shape);
    assert Sound(DroppedNow(Descend(Ticked(h), shape)));
  }

  lemma PassSound(h: Played, e: Event)
    requires Sound(h) && e.first < 7 && e.second < 7
    ensures Sound(Pass(h, e))
  {
    if !h.game.over {
      RespondSound(h, e);
      if !Respond(h, e).game.over {
        GravitySound(Respond(h, e), e.second);
      }
    }
  }

  ghost predicate Drawn(events: seq<Event>) { forall e | e in events :: e.first < 7 && e.second < 7 }

  function Play(h: Played, events: seq<Event>): (k: Played)
    requires Sound(h) && Drawn(events)
    ensures Sound(k)
  {
    if events == [] then h
    else
      var before := Play(h, events[..|events| - 1]);
      PassSound(before, events[|events| - 1]);
      Pass(before, events[|events| - 1])
  }

  /**
    * Over every sequence of inputs: while play continues the current piece overlaps nothing and stays inside sides and
    * floor, column heights are the highest filled rows, cells are coloured exactly when filled, no row is full between
    * passes, and filled cells are those locked minus ten per cleared row.
    */
  lemma EveryGame(first: nat, second: nat, events: seq<Event>)
    requires first < 7 && second < 7 && Drawn(events)
    ensures Sound(Start(first, second))
    ensures var h := Play(Start(first, second), events);
            var g := h.game;
            && (!g.over ==> forall i | 0 <= i < 4 ::
                  && 0 <= CellX(g.current, i) < WIDTH && 0 <= CellY(g.current, i)
                  && (CellY(g.current, i) < HEIGHT ==>
                        !g.grid.rows[CellY(g.current, i)][CellX(g.current, i)].filled))
            && (forall x | 0 <= x < WIDTH :: g.grid.relief[x] == Top(g.grid.rows, x, HEIGHT))
            && AllPainted(g.grid.rows) && Settled(g.grid.rows)
            && Filled(g.grid.rows) == h.locked - 10 * h.cleared
            && g.grid.lines == h.cleared % 0x1_0000
  {
    StartSound(first, second);
    var g := Play(Start(first, second), events).game;
    if !g.over {
      forall i | 0 <= i < 4 ensures !Hits(g.grid.rows, CellX(g.current, i), CellY(g.current, i)) {
      }
    }
  }
}
