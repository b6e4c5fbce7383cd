/**
  The rules of the game by coordinates: what every input, the clock and a locked
  piece do to grid, piece and counters, told without the program's own functions.
 */
module TetrisRules {
  import opened Basics
  import opened TetrisGrid
  import opened TetrisGame

  // ---------------------------------------------------------------- places

  /** Between the sides, above the floor, and not on a filled cell. */
  predicate Open(b: seq<Row>, x: int, y: int) { 0 <= x < 10 && 0 <= y && (y < |b| ==> !b[y][x].filled) }

  /** Every cell of the piece is in an open place. */
  ghost predicate Free(b: seq<Row>, p: Piece) {
    forall i | 0 <= i < 4 :: Open(b, CellX(p, i), CellY(p, i))
  }

  lemma FreeOrCollides(b: seq<Row>, p: Piece)
    ensures Free(b, p) <==> !Collides(b, p)
  {
    if !Collides(b, p) {
      forall i | 0 <= i < 4 ensures Open(b, CellX(p, i), CellY(p, i)) {
        assert !Hits(b, CellX(p, i), CellY(p, i));
      }
    } else {
      var i :| 0 <= i < 4 && Hits(b, CellX(p, i), CellY(p, i));
      assert !Open(b, CellX(p, i), CellY(p, i));
    }
  }

  /** The piece lies in a place straight below, came through free places only, and cannot go on. */
  ghost predicate Rests(b: seq<Row>, p: Piece, q: Piece) {
    && q == p.(y := q.y) && q.y <= p.y
    && (forall y | q.y <= y <= p.y :: Free(b, p.(y := y)))
    && !Free(b, q.(y := q.y - 1))
  }

  lemma DropFalls(b: seq<Row>, p: Piece)
    requires !Collides(b, p)
    ensures Rests(b, p, Drop(b, p))
  {
    var q := Drop(b, p);
    forall y | q.y <= y <= p.y ensures Free(b, p.(y := y)) {
      DropRests(b, p, y);
      FreeOrCollides(b, p.(y := y));
    }
    DropRests(b, p, p.y);
    FreeOrCollides(b, q.(y := q.y - 1));
  }

  /** Cell i is a leftmost one and cell j a rightmost one, and the right gap is the left one or one wider. */
  predicate InMiddle(q: Piece, i: nat, j: nat)
    requires i < 4 && j < 4
  {
    && (forall k | 0 <= k < 4 :: 0 <= CellX(q, i) <= CellX(q, k) <= CellX(q, j) < 10)
    && 0 <= (9 - CellX(q, j)) - CellX(q, i) <= 1
  }

  /** Cell i is a highest one, in the top row. */
  predicate AtTop(q: Piece, i: nat)
    requires i < 4
  {
    CellY(q, i) == 17 && forall k | 0 <= k < 4 :: 0 <= CellY(q, k) <= 17
  }

  /** A new piece: unrotated, in its colour, in the middle, its highest cells in the top row. */
  ghost predicate Enters(q: Piece, shape: nat) {
    && shape < 7 && q.shape == shape && q.rot == 0 && q.color == [2, 3, 1, 6, 7, 4, 5][shape]
    && (exists i | 0 <= i < 4 :: AtTop(q, i)) && exists i, j | 0 <= i < 4 && 0 <= j < 4 :: InMiddle(q, i, j)
  }

  lemma SpawnPlace(shape: nat) returns (low: nat, high: nat, top: nat)
    requires shape < 7
    ensures low < 4 && high < 4 && top < 4
    ensures InMiddle(Spawn(shape), low, high) && AtTop(Spawn(shape), top)
  {
    match shape
    case 0 => low, high, top := 0, 1, 2;
    case 1 => low, high, top := 0, 2, 0;
    case 2 => low, high, top := 0, 3, 0;
    case 3 => low, high, top := 0, 3, 1;
    case 4 => low, high, top := 0, 2, 3;
    case 5 => low, high, top := 0, 3, 2;
    case 6 => low, high, top := 0, 3, 0;
  }

  lemma SpawnEnters(shape: nat)
    requires shape < 7
    ensures Enters(Spawn(shape), shape)
  {
    var low, high, top := SpawnPlace(shape);
  }

  // ---------------------------------------------------------------- locking a piece

  /** The grid a with the piece's cells added to b. */
  ghost predicate Stamped(b: seq<Row>, p: Piece, a: seq<Row>) {
    && |a| == |b|
    && forall x: nat, y: nat | x < 10 && y < |b| ::
         a[y][x] == if exists i | 0 <= i < 4 :: CellX(p, i) == x && CellY(p, i) == y then Cell(true, p.color) else b[y][x]
  }

  predicate Whole(r: Row) { forall x | 0 <= x < 10 :: r[x].filled }

  /** Whole rows below row y. */
  function FullBelow(b: seq<Row>, y: nat): nat
    requires y <= |b|
  {
    if y == 0 then 0
    else FullBelow(b, y - 1) + if Whole(b[y - 1]) then 1 else 0
  }

  lemma {:induction false} BelowGrows(b: seq<Row>, y: nat)
    requires y <= |b|
    ensures FullBelow(b, y) <= y
  {
    if y > 0 { BelowGrows(b, y - 1); }
  }

  /** Rows that are not whole fall by as many rows as were whole below them; the rows on top are empty. */
  ghost predicate Falls(a: seq<Row>, c: seq<Row>) {
    && |c| == |a|
    && (forall y: nat | y < |a| && !Whole(a[y]) :: FullBelow(a, y) <= y && c[y - FullBelow(a, y)] == a[y])
    && forall y: nat, x: nat | |a| - FullBelow(a, |a|) <= y < |a| && x < 10 :: c[y][x] == Cell(false, 0)
  }

  lemma {:induction false} BelowJoin(b: seq<Row>, y: nat)
    requires y <= |b|
    ensures FullBelow(b, y) == FullRows(b[..y])
    ensures |Kept(b[..y])| == y - FullBelow(b, y)
  {
    KeptCount(b[..y]);
    if y > 0 {
      BelowJoin(b, y - 1);
      assert b[..y] == b[..y - 1] + [b[y - 1]];
      KeptJoins(b[..y - 1], [b[y - 1]]);
      assert [b[y - 1]][1..] == [];
    }
  }

  /** Where a row that is not full ends up. */
  lemma RowFalls(b: seq<Row>, y: nat)
    requires y < |b| && !Full(b[y])
    ensures FullBelow(b, y) <= y && |Cleared(b)| == |b| && Cleared(b)[y - FullBelow(b, y)] == b[y]
  {
    KeptCount(b);
    BelowGrows(b, y);
    BelowJoin(b, y);
    var below, rest := b[..y], b[y..];
    assert b == below + rest && rest[0] == b[y];
    KeptJoins(below, rest);
    assert Kept(rest) == [b[y]] + Kept(rest[1..]);
    assert Kept(b)[|Kept(below)|] == b[y];
  }

  lemma TopIsEmpty(b: seq<Row>, y: nat, x: nat)
    requires |b| - FullRows(b) <= y < |b| && x < 10
    ensures |Cleared(b)| == |b| && Cleared(b)[y][x] == Cell(false, 0)
  {
    KeptCount(b);
    assert Cleared(b)[y] == EmptyRows(FullRows(b))[y - |Kept(b)|];
  }

  lemma WholeBelow(b: seq<Row>)
    ensures FullBelow(b, |b|) == FullRows(b)
  {
    BelowJoin(b, |b|);
    assert b[..|b|] == b;
  }

  lemma ClearedFalls(b: seq<Row>, c: seq<Row>)
    requires c == Cleared(b)
    ensures Falls(b, c)
  {
    KeptCount(b);
    WholeBelow(b);
    forall y: nat | y < |b| && !Whole(b[y]) ensures FullBelow(b, y) <= y && c[y - FullBelow(b, y)] == b[y] {
      RowFalls(b, y);
    }
    forall y: nat, x: nat | |b| - FullBelow(b, |b|) <= y < |b| && x < 10 ensures c[y][x] == Cell(false, 0) {
      TopIsEmpty(b, y, x);
    }
  }

  /** How many of the piece's cells are in the grid. */
  function CellsIn(p: Piece, n: nat): nat
    requires n <= 4
  {
    if n == 0 then 0
    else CellsIn(p, n - 1) + if 0 <= CellX(p, n - 1) < 10 && 0 <= CellY(p, n - 1) < 18 then 1 else 0
  }

  /** Lines count in 16 bits and the score in 32; ten lines make a level, of which there are twenty. */
  ghost predicate Counted(g: Grid, k: Grid, n: nat) {
    if n == 0 then k.lines == g.lines && k.score == g.score && k.level == g.level
    else
      && k.lines == (g.lines + n) % 0x1_0000
      && k.score == (g.score + (if n == 1 then 40 else if n == 2 then 100 else if n == 3 then 300 else 1200) * g.level)
                    % 0x1_0000_0000
      && k.level == Min(20, (1 + k.lines / 10) % 256)
  }

  /** The piece stays where it is and n whole rows go. */
  ghost predicate Settles(g: Grid, p: Piece, k: Grid, n: nat) {
    Counted(g, k, n) && exists a :: Stamped(g.rows, p, a) && Falls(a, k.rows) && n == FullBelow(a, |a|)
  }

  /** The announced piece enters and another is announced; without room for it the game is over. */
  ghost predicate Follows(g: Game, m: Game, shape: nat) {
    && Enters(m.current, g.next.shape) && Enters(m.next, shape)
    && m.over == (g.over || !Free(m.grid.rows, m.current))
    && m.tick == g.tick && m.lastDrop == g.lastDrop
  }

  ghost predicate Locks(h: Played, k: Played, shape: nat) {
    && k.cleared >= h.cleared && Settles(h.game.grid, h.game.current, k.game.grid, k.cleared - h.cleared)
    && k.locked == h.locked + CellsIn(h.game.current, 4)
    && Follows(h.game, k.game, shape)
  }

  lemma {:induction false} InsideCells(p: Piece, n: nat)
    requires n <= 4
    ensures Inside(p, n) == CellsIn(p, n)
  {
    if n > 0 { InsideCells(p, n - 1); }
  }

  lemma AddStamps(g: Grid, p: Piece)
    requires |g.relief| == 10
    ensures Stamped(g.rows, p, Add(g, p).rows)
  {
    forall x: nat, y: nat | x < 10 && y < |g.rows|
      ensures Add(g, p).rows[y][x] ==
              if exists i | 0 <= i < 4 :: CellX(p, i) == x && CellY(p, i) == y then Cell(true, p.color) else g.rows[y][x]
    {
      LockedCells(g.rows, p, 4, x, y);
    }
  }

  lemma ClearLinesFalls(g: Grid, c: seq<Row>)
    requires c == ClearLines(g).0.rows
    ensures Falls(g.rows, c)
  {
    ClearedFalls(g.rows, Cleared(g.rows));
    if FullRows(g.rows) == 0 {
      NoFullRows(g.rows);
      NothingFull(g.rows);
      assert Cleared(g.rows) == g.rows;
    }
  }

  lemma ClearLinesCounts(g: Grid)
    ensures Counted(g, ClearLines(g).0, FullRows(g.rows))
  {
    var n := FullRows(g.rows);
    if n > 0 {
      assert Reward(Min(n, 4)) == if n == 1 then 40 else if n == 2 then 100 else if n == 3 then 300 else 1200;
    }
  }

  lemma SettlesThrough(g: Grid, p: Piece, a: seq<Row>, k: Grid, n: nat)
    requires Stamped(g.rows, p, a) && Falls(a, k.rows) && n == FullBelow(a, |a|) && Counted(g, k, n)
    ensures Settles(g, p, k, n)
  {
  }

  lemma CountedFrom(g: Grid, a: Grid, k: Grid, n: nat)
    requires Counted(a, k, n) && a.lines == g.lines && a.score == g.score && a.level == g.level
    ensures Counted(g, k, n)
  {
  }

  lemma ClearedSettlesGrid(g: Grid, p: Piece, a: Grid, k: Grid, n: nat)
    requires Stamped(g.rows, p, a.rows) && a.lines == g.lines && a.score == g.score && a.level == g.level
    requires k == ClearLines(a).0 && n == FullRows(a.rows)
    ensures Settles(g, p, k, n)
  {
    ClearLinesFalls(a, k.rows);
    WholeBelow(a.rows);
    ClearLinesCounts(a);
    CountedFrom(g, a, k, n);
    SettlesThrough(g, p, a.rows, k, n);
  }

  /** What locking does, step by step. */
  lemma LockSteps(h: Played, shape: nat) returns (a: Grid, k: Played, n: nat)
    requires |h.game.grid.relief| == 10 && h.game.next.shape < 7 && shape < 7
    ensures k == Lock(h, shape) && Stamped(h.game.grid.rows, h.game.current, a.rows)
    ensures a.lines == h.game.grid.lines && a.score == h.game.grid.score && a.level == h.game.grid.level
    ensures k.game.grid == ClearLines(a).0 && n == FullRows(a.rows)
    ensures k.cleared == h.cleared + n && k.locked == h.locked + Inside(h.game.current, 4)
    ensures k.game == h.game.(grid := k.game.grid, current := Spawn(h.game.next.shape), next := Spawn(shape),
                              over := h.game.over || Collides(k.game.grid.rows, k.game.current))
  {
    AddStamps(h.game.grid, h.game.current);
    a := Add(h.game.grid, h.game.current);
    k := Lock(h, shape);
    n := FullRows(a.rows);
  }

  lemma NextFollows(g: Game, m: Game, shape: nat)
    requires g.next.shape < 7 && shape < 7
    requires m == g.(grid := m.grid, current := Spawn(g.next.shape), next := Spawn(shape),
                     over := g.over || Collides(m.grid.rows, m.current))
    ensures Follows(g, m, shape)
  {
    SpawnEnters(g.next.shape);
    SpawnEnters(shape);
    FreeOrCollides(m.grid.rows, m.current);
  }

  lemma LockLocks(h: Played, k: Played, shape: nat)
    requires |h.game.grid.relief| == 10 && h.game.next.shape < 7 && shape < 7 && k == Lock(h, shape)
    ensures Locks(h, k, shape)
  {
    var a, l, n := LockSteps(h, shape);
    ClearedSettlesGrid(h.game.grid, h.game.current, a, k.game.grid, n);
    InsideCells(h.game.current, 4);
    NextFollows(h.game, k.game, shape);
  }

  // ---------------------------------------------------------------- inputs

  /** The piece takes a place if it is free, and otherwise nothing happens. */
  ghost predicate Takes(h: Played, k: Played, q: Piece) {
    if Free(h.game.grid.rows, q) then k == h.(game := h.game.(current := q)) else k == h
  }

  /** The next rotation in place, else one column to the left, else one to the right, else nothing. */
  ghost predicate Turns(h: Played, k: Played) {
    var b, p := h.game.grid.rows, h.game.current;
    var q := p.(rot := (p.rot + 1) % Rotations(p.shape));
    if Free(b, q) then k == h.(game := h.game.(current := q))
    else if Free(b, q.(x := p.x - 1)) then k == h.(game := h.game.(current := q.(x := p.x - 1)))
    else if Free(b, q.(x := p.x + 1)) then k == h.(game := h.game.(current := q.(x := p.x + 1)))
    else k == h
  }

  /** One row down; a piece that cannot locks. */
  ghost predicate Sinks(h: Played, k: Played, shape: nat) {
    var q := h.game.current.(y := h.game.current.y - 1);
    if Free(h.game.grid.rows, q) then k == h.(game := h.game.(current := q)) else Locks(h, k, shape)
  }

  ghost predicate SinksSoftly(h: Played, k: Played, shape: nat) {
    exists m ::
      && Sinks(h, m, shape)
      && k == m.(game := m.game.(grid := m.game.grid.(score := (m.game.grid.score + 1) % 0x1_0000_0000), lastDrop := m.game.tick))
  }

  /** The piece at its resting place, two points for each row it fell. */
  ghost predicate Lands(h: Played, k: Played) {
    var q := k.game.current;
    && Rests(h.game.grid.rows, h.game.current, q)
    && k == h.(game := h.game.(
         current := q,
         grid := h.game.grid.(score := (h.game.grid.score + 2 * (h.game.current.y - q.y)) % 0x1_0000_0000)))
  }

  ghost predicate FallsHard(h: Played, k: Played, shape: nat) {
    exists l, m :: Lands(h, l) && Locks(l, m, shape) && k == m.(game := m.game.(lastDrop := m.game.tick))
  }

  ghost predicate InputDoes(h: Played, k: Played, input: Input, shape: nat) {
    var g := h.game;
    match input
    case Nothing => k == h
    case MoveLeft => Takes(h, k, g.current.(x := g.current.x - 1))
    case MoveRight => Takes(h, k, g.current.(x := g.current.x + 1))
    case Turn => Turns(h, k)
    case SoftDrop => SinksSoftly(h, k, shape)
    case HardDrop => FallsHard(h, k, shape)
    case Pause(quit) => k == h.(game := if quit then g.(over := true) else g.(lastDrop := g.tick))
    case Quit => k == h.(game := g.(over := true))
  }

  function Later(h: Played): Played { h.(game := h.game.(tick := (h.game.tick + 1) % 0x1_0000_0000)) }

  /** The clock moves on; once two ticks have passed since the piece last came down it does so. */
  ghost predicate ClockDoes(h: Played, k: Played, shape: nat) {
    if (Later(h).game.tick - h.game.lastDrop) % 0x1_0000_0000 < 2 then k == Later(h) else SinksNow(Later(h), k, shape)
  }

  ghost predicate SinksNow(h: Played, k: Played, shape: nat) {
    exists m :: Sinks(h, m, shape) && k == m.(game := m.game.(lastDrop := m.game.tick))
  }

  ghost predicate PassDoes(h: Played, k: Played, e: Event) {
    if h.game.over then k == h
    else exists m :: InputDoes(h, m, e.input, e.first) && if m.game.over then k == m else ClockDoes(m, k, e.second)
  }

  // ---------------------------------------------------------------- the program follows the rules

  lemma MoveTakes(h: Played, d: Direction)
    ensures var p := h.game.current;
            var q := if d == Left then p.(x := p.x - 1) else if d == Right then p.(x := p.x + 1)
                     else if d == Down then p.(y := p.y - 1) else p.(y := p.y + 1);
            Takes(h, WithCurrent(h, Move(h.game.grid.rows, p, d)), q)
  {
    FreeOrCollides(h.game.grid.rows, Shifted(h.game.current, d));
  }

  lemma RotateChain(b: seq<Row>, p: Piece, q: Piece)
    requires q == p.(rot := (p.rot + 1) % Rotations(p.shape))
    ensures Rotate(b, p) ==
            if !Collides(b, q) then q
            else if !Collides(b, q.(x := p.x - 1)) then q.(x := p.x - 1)
            else if !Collides(b, q.(x := p.x + 1)) then q.(x := p.x + 1)
            else p
  {
    TetrisGame.NextRotation(p.rot, Rotations(p.shape));
  }

  lemma RotateTurns(h: Played, k: Played)
    requires k == WithCurrent(h, Rotate(h.game.grid.rows, h.game.current))
    ensures Turns(h, k)
  {
    var b, p := h.game.grid.rows, h.game.current;
    var q := p.(rot := (p.rot + 1) % Rotations(p.shape));
    RotateChain(b, p, q);
    FreeOrCollides(b, q);
    FreeOrCollides(b, q.(x := p.x - 1));
    FreeOrCollides(b, q.(x := p.x + 1));
  }

  lemma DescendSinks(h: Played, k: Played, shape: nat)
    requires |h.game.grid.relief| == 10 && h.game.next.shape < 7 && shape < 7 && k == Descend(h, shape)
    ensures Sinks(h, k, shape)
  {
    FreeOrCollides(h.game.grid.rows, h.game.current.(y := h.game.current.y - 1));
    if Collides(h.game.grid.rows, Shifted(h.game.current, Down)) {
      LockLocks(h, k, shape);
    }
  }

  lemma SoftDropRules(h: Played, m: Played, k: Played, shape: nat)
    requires Sinks(h, m, shape) && k == DroppedNow(Score(m, 1))
    ensures SinksSoftly(h, k, shape)
  {
  }

  lemma DropLands(h: Played, q: Piece, l: Played)
    requires !Collides(h.game.grid.rows, h.game.current) && q == Drop(h.game.grid.rows, h.game.current)
    requires l == Score(WithCurrent(h, q), 2 * (h.game.current.y - q.y))
    ensures Lands(h, l)
  {
    DropFalls(h.game.grid.rows, h.game.current);
  }

  lemma HardDropRules(h: Played, l: Played, m: Played, k: Played, shape: nat)
    requires Lands(h, l) && Locks(l, m, shape) && k == DroppedNow(m)
    ensures FallsHard(h, k, shape)
  {
  }

  lemma SteerRules(h: Played, k: Played, e: Event)
    requires |h.game.grid.relief| == 10 && h.game.next.shape < 7 && e.first < 7 && k == Respond(h, e)
    requires e.input.MoveLeft? || e.input.MoveRight? || e.input.Turn?
    ensures InputDoes(h, k, e.input, e.first)
  {
    if e.input.MoveLeft? {
      MoveTakes(h, Left);
    } else if e.input.MoveRight? {
      MoveTakes(h, Right);
    } else {
      RotateTurns(h, k);
    }
  }

  lemma SoftResponse(h: Played, e: Event) returns (m: Played, k: Played)
    requires |h.game.grid.relief| == 10 && h.game.next.shape < 7 && e.first < 7 && e.input.SoftDrop?
    ensures m == Descend(h, e.first) && k == DroppedNow(Score(m, 1)) == Respond(h, e)
  {
    m := Descend(h, e.first);
    k := DroppedNow(Score(m, 1));
  }

  lemma HardResponse(h: Played, e: Event) returns (q: Piece, l: Played, m: Played, k: Played)
    requires |h.game.grid.relief| == 10 && h.game.next.shape < 7 && e.first < 7 && e.input.HardDrop?
    ensures q == Drop(h.game.grid.rows, h.game.current) && l == Score(WithCurrent(h, q), 2 * (h.game.current.y - q.y))
    ensures |l.game.grid.relief| == 10 && l.game.next.shape < 7
    ensures m == Lock(l, e.first) && k == DroppedNow(m) == Respond(h, e)
  {
    q := Drop(h.game.grid.rows, h.game.current);
    l := Score(WithCurrent(h, q), 2 * (h.game.current.y - q.y));
    m := Lock(l, e.first);
    k := DroppedNow(m);
  }

  lemma SoftlyRules(h: Played, k: Played, e: Event)
    requires |h.game.grid.relief| == 10 && h.game.next.shape < 7 && e.first < 7 && e.input.SoftDrop? && k == Respond(h, e)
    ensures SinksSoftly(h, k, e.first)
  {
    var m, r := SoftResponse(h, e);
    DescendSinks(h, m, e.first);
    SoftDropRules(h, m, k, e.first);
  }

  lemma HardRules(h: Played, k: Played, e: Event)
    requires |h.game.grid.relief| == 10 && h.game.next.shape < 7 && e.first < 7 && e.input.HardDrop? && k == Respond(h, e)
    requires !Collides(h.game.grid.rows, h.game.current)
    ensures FallsHard(h, k, e.first)
  {
    var q, l, m, r := HardResponse(h, e);
    DropLands(h, q, l);
    LockLocks(l, m, e.first);
    HardDropRules(h, l, m, k, e.first);
  }

  lemma FallRules(h: Played, k: Played, e: Event)
    requires if e.input.SoftDrop? then SinksSoftly(h, k, e.first) else e.input.HardDrop? && FallsHard(h, k, e.first)
    ensures InputDoes(h, k, e.input, e.first)
  {
  }

  lemma RespondRules(h: Played, k: Played, e: Event)
    requires Sound(h) && !h.game.over && e.first < 7 && k == Respond(h, e)
    ensures InputDoes(h, k, e.input, e.first)
  {
    if e.input.MoveLeft? || e.input.MoveRight? || e.input.Turn? {
      SteerRules(h, k, e);
    } else if e.input.SoftDrop? {
      SoftlyRules(h, k, e);
      FallRules(h, k, e);
    } else if e.input.HardDrop? {
      HardRules(h, k, e);
      FallRules(h, k, e);
    }
  }

  lemma SinksThrough(h: Played, m: Played, k: Played, shape: nat)
    requires Sinks(h, m, shape) && k == m.(game := m.game.(lastDrop := m.game.tick))
    ensures SinksNow(h, k, shape)
  {
  }

  lemma ClockBy(h: Played, sunk: Played, k: Played, shape: nat)
    requires SinksNow(Later(h), sunk, shape)
    requires k == if (Later(h).game.tick - h.game.lastDrop) % 0x1_0000_0000 < 2 then Later(h) else sunk
    ensures ClockDoes(h, k, shape)
  {
  }

  lemma GravityCases(h: Played, shape: nat) returns (m: Played, sunk: Played)
    requires |h.game.grid.relief| == 10 && h.game.next.shape < 7 && shape < 7
    ensures m == Descend(Later(h), shape) && sunk == m.(game := m.game.(lastDrop := m.game.tick))
    ensures Gravity(h, shape) == if (Later(h).game.tick - h.game.lastDrop) % 0x1_0000_0000 < 2 then Later(h) else sunk
  {
    m := Descend(Later(h), shape);
    sunk := DroppedNow(m);
  }

  lemma GravityRules(h: Played, k: Played, shape: nat)
    requires |h.game.grid.relief| == 10 && h.game.next.shape < 7 && shape < 7 && k == Gravity(h, shape)
    ensures ClockDoes(h, k, shape)
  {
    var m, sunk := GravityCases(h, shape);
    DescendSinks(Later(h), m, shape);
    SinksThrough(Later(h), m, sunk, shape);
    ClockBy(h, sunk, k, shape);
  }

  lemma PassRules(h: Played, e: Event)
    requires Sound(h) && e.first < 7 && e.second < 7
    ensures PassDoes(h, Pass(h, e), e)
  {
    if !h.game.over {
      RespondRules(h, Respond(h, e), e);
      RespondSound(h, e);
      if !Respond(h, e).game.over {
        GravityRules(Respond(h, e), Gravity(Respond(h, e), e.second), e.second);
      }
    }
  }

  /** A new game: an empty field, nothing counted, level one, and the two shapes drawn. */
  lemma StartRules(first: nat, second: nat)
    requires first < 7 && second < 7
    ensures var h := Start(first, second);
            && |h.game.grid.rows| == 18 && |h.game.grid.relief| == 10
            && (forall x: nat, y: nat | x < 10 && y < 18 :: h.game.grid.rows[y][x] == Cell(false, 0) && h.game.grid.relief[x] == -1)
            && h.game.grid.lines == 0 && h.game.grid.score == 0 && h.game.grid.level == 1
            && Enters(h.game.current, first) && Enters(h.game.next, second)
            && !h.game.over && h.game.tick == 0 && h.game.lastDrop == 0 && h.locked == 0 && h.cleared == 0
  {
    SpawnEnters(first);
    SpawnEnters(second);
  }

  /** A game as it went, pass by pass. */
  ghost predicate Went(states: seq<Played>, events: seq<Event>) {
    |states| == |events| + 1 && forall k | 0 <= k < |events| :: PassDoes(states[k], states[k + 1], events[k])
  }

  /** Over every sequence of inputs every pass does what the rules say. */
  lemma {:induction false} EveryPassRuled(h: Played, events: seq<Event>) returns (states: seq<Played>)
    requires Sound(h) && Drawn(events)
    ensures Went(states, events) && states[0] == h && states[|events|] == Play(h, events)
  {
    if events == [] {
      states := [h];
    } else {
      var before, e := events[..|events| - 1], events[|events| - 1];
      var earlier := EveryPassRuled(h, before);
      assert e in events;
      PassRules(Play(h, before), e);
      states := earlier + [Pass(Play(h, before), e)];
      forall k | 0 <= k < |events| ensures PassDoes(states[k], states[k + 1], events[k]) {
        if k < |before| {
          assert PassDoes(earlier[k], earlier[k + 1], before[k]);
        }
      }
    }
  }

  // ---------------------------------------------------------------- the shapes

  /** A cell turned by a quarter, clockwise or not, in a box so many cells wide and high. */
  function QuarterTurn(o: Offset, width: nat, height: nat, clockwise: bool): Offset
    requires o.x < width && o.y < height
  {
    if clockwise then At(o.y, width - 1 - o.x) else At(height - 1 - o.y, o.x)
  }

  /** The unrotated shape's box, standing on its side every other time. */
  function BoxWidth(shape: nat, rot: nat): nat { if rot % 2 == 0 then Width(shape) else Height(shape) }
  function BoxHeight(shape: nat, rot: nat): nat { if rot % 2 == 0 then Height(shape) else Width(shape) }

  lemma InBox(shape: nat, rot: nat)
    requires shape < 7 && rot < Rotations(shape)
    ensures forall i | 0 <= i < 4 ::
              Offsets(shape, rot)[i].x < BoxWidth(shape, rot) && Offsets(shape, rot)[i].y < BoxHeight(shape, rot)
  {
  }

  /** Each rotation is the one before turned by a quarter: shape 1 clockwise, all others the other way round. */
  lemma QuarterTurns(shape: nat, rot: nat, i: nat) returns (j: nat)
    requires shape < 7 && rot < Rotations(shape) && i < 4
    ensures Offsets(shape, rot)[i].x < BoxWidth(shape, rot) && Offsets(shape, rot)[i].y < BoxHeight(shape, rot)
    ensures j < 4 && Offsets(shape, (rot + 1) % Rotations(shape))[j] ==
                     QuarterTurn(Offsets(shape, rot)[i], BoxWidth(shape, rot), BoxHeight(shape, rot), shape == 1)
  {
    InBox(shape, rot);
    var turned := QuarterTurn(Offsets(shape, rot)[i], BoxWidth(shape, rot), BoxHeight(shape, rot), shape == 1);
    var next := Offsets(shape, (rot + 1) % Rotations(shape));
    j := if next[0] == turned then 0 else if next[1] == turned then 1 else if next[2] == turned then 2 else 3;
  }
}
