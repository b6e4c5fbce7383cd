/** The playfield in place: bit masks, colours, heights and counters changed by loops. */
module TetrisField {
  import opened Basics
  import opened TetrisGrid
  import opened TetrisGame

  type Mask = m: seq<bool> | |m| == WIDTH witness [false, false, false, false, false, false, false, false, false, false]

  /** The rows after one was taken out and the ones above moved down. */
  function Without(b: seq<Row>, row: nat): (c: seq<Row>)
    requires row < |b|
    ensures |c| == |b|
  {
    b[..row] + b[row + 1..] + [EmptyRow()]
  }

  lemma KeptSingle(r: Row)
    ensures Kept([r]) == KeptRow(r) && FullRows([r]) == if Full(r) then 1 else 0
  {
    assert [r][1..] == [];
  }

  lemma KeptSkipsFull(below: seq<Row>, r: Row, above: seq<Row>)
    requires Full(r)
    ensures Kept(below + ([r] + above)) == Kept(below + above)
    ensures FullRows(below + ([r] + above)) == FullRows(below + above) + 1
  {
    KeptJoins(below, [r] + above);
    KeptJoins([r], above);
    KeptJoins(below, above);
    KeptSingle(r);
    assert [] + Kept(above) == Kept(above);
  }

  lemma KeptTakesEmpty(b: seq<Row>)
    ensures Kept(b + [EmptyRow()]) == Kept(b) + [EmptyRow()] && FullRows(b + [EmptyRow()]) == FullRows(b)
  {
    assert !EmptyRow()[0].filled;
    KeptJoins(b, [EmptyRow()]);
    KeptSingle(EmptyRow());
  }

  lemma RefillsTop(kept: seq<Row>, n: nat)
    ensures kept + [EmptyRow()] + EmptyRows(n) == kept + EmptyRows(n + 1)
  {
    assert EmptyRows(n + 1) == [EmptyRow()] + EmptyRows(n);
  }

  lemma RemovalCounts(b: seq<Row>, row: nat)
    requires row < |b| && Full(b[row])
    ensures FullRows(Without(b, row)) == FullRows(b) - 1
    ensures Kept(Without(b, row)) == Kept(b) + [EmptyRow()]
  {
    var below, above := b[..row], b[row + 1..];
    assert b == below + ([b[row]] + above);
    KeptSkipsFull(below, b[row], above);
    KeptTakesEmpty(below + above);
  }

  lemma RemovalClears(b: seq<Row>, row: nat)
    requires row < |b| && Full(b[row])
    ensures FullRows(Without(b, row)) == FullRows(b) - 1
    ensures Cleared(Without(b, row)) == Cleared(b)
  {
    RemovalCounts(b, row);
    RefillsTop(Kept(b), FullRows(b) - 1);
  }

  class Field {
    const rows: array<Mask>
    const colors: array2<nat>
    const relief: array<int>
    var lines: nat
    var score: nat
    var level: nat

    ghost predicate Valid() {
      && rows.Length == HEIGHT && colors.Length0 == HEIGHT && colors.Length1 == WIDTH && relief.Length == WIDTH
    }

    ghost function RowAt(y: nat): (r: Row)
      requires Valid() && y < HEIGHT
      reads rows, colors
    {
      seq(WIDTH, x requires 0 <= x < WIDTH reads rows, colors => Cell(rows[y][x], colors[y, x]))
    }

    ghost function Board(): (b: seq<Row>)
      requires Valid()
      reads rows, colors
      ensures |b| == HEIGHT && forall y | 0 <= y < HEIGHT :: b[y] == RowAt(y)
    {
      seq(HEIGHT, y requires 0 <= y < HEIGHT reads rows, colors => RowAt(y))
    }

    ghost function State(): Grid
      requires Valid()
      reads this, rows, colors, relief
    {
      Grid(Board(), relief[..], lines, score, level)
    }

    constructor ()
      ensures Valid() && State() == NewGrid() && fresh(rows) && fresh(colors) && fresh(relief)
    {
      rows := new Mask[HEIGHT](_ => seq(WIDTH, _ => false));
      colors := new nat[HEIGHT, WIDTH]((_, _) => 0);
      relief := new int[WIDTH](_ => -1);
      lines, score, level := 0, 0, 1;
      new;
      assert forall y | 0 <= y < HEIGHT :: RowAt(y) == EmptyRow();
    }

    method RowFull(y: nat) returns (full: bool)
      requires Valid() && y < HEIGHT
      ensures full == Full(Board()[y])
    {
      full := forall x | 0 <= x < WIDTH :: rows[y][x];
      assert forall x | 0 <= x < WIDTH :: RowAt(y)[x].filled == rows[y][x];
      assert Board()[y] == RowAt(y);
    }

    method CopyColors(y: nat)
      requires Valid() && y + 1 < HEIGHT
      modifies colors
      ensures forall i, x | 0 <= i < HEIGHT && 0 <= x < WIDTH ::
                colors[i, x] == if i == y then old(colors[y + 1, x]) else old(colors[i, x])
    {
      for x := 0 to WIDTH
        invariant forall i, z | 0 <= i < HEIGHT && 0 <= z < WIDTH ::
                    colors[i, z] == if i == y && z < x then old(colors[y + 1, z]) else old(colors[i, z])
      {
        colors[y, x] := colors[y + 1, x];
      }
    }

    method ShiftDown(row: nat)
      requires Valid() && row < HEIGHT
      modifies rows, colors
      ensures forall i | 0 <= i < HEIGHT - 1 :: rows[i] == if row <= i then old(rows[i + 1]) else old(rows[i])
      ensures forall i, x | 0 <= i < HEIGHT - 1 && 0 <= x < WIDTH ::
                colors[i, x] == if row <= i then old(colors[i + 1, x]) else old(colors[i, x])
    {
      for y := row to HEIGHT - 1
        invariant forall i | 0 <= i < HEIGHT :: rows[i] == if row <= i < y then old(rows[i + 1]) else old(rows[i])
        invariant forall i, x | 0 <= i < HEIGHT && 0 <= x < WIDTH ::
                    colors[i, x] == if row <= i < y then old(colors[i + 1, x]) else old(colors[i, x])
      {
        rows[y] := rows[y + 1];
        CopyColors(y);
      }
    }

    method BlankTop()
      requires Valid()
      modifies rows, colors
      ensures RowAt(HEIGHT - 1) == EmptyRow()
      ensures forall i | 0 <= i < HEIGHT - 1 :: rows[i] == old(rows[i])
      ensures forall i, x | 0 <= i < HEIGHT - 1 && 0 <= x < WIDTH :: colors[i, x] == old(colors[i, x])
    {
      rows[HEIGHT - 1] := seq(WIDTH, _ => false);
      var top := HEIGHT - 1;
      for x := 0 to WIDTH
        invariant forall i | 0 <= i < HEIGHT :: rows[i] == if i == top then seq(WIDTH, _ => false) else old(rows[i])
        invariant forall i, z | 0 <= i < HEIGHT && 0 <= z < WIDTH && (i < top || z < x) ::
                    colors[i, z] == if i == top then 0 else old(colors[i, z])
      {
        colors[top, x] := 0;
      }
      assert RowAt(top) == EmptyRow();
    }

    method RemoveRow(row: nat)
      requires Valid() && row < HEIGHT
      modifies rows, colors
      ensures Board() == Without(old(Board()), row)
    {
      ShiftDown(row);
      BlankTop();
      forall y | 0 <= y < HEIGHT - 1 ensures RowAt(y) == if row <= y then old(RowAt(y + 1)) else old(RowAt(y)) {
      }
    }

    method FindTop(x: nat)
      requires Valid() && x < WIDTH
      modifies relief
      ensures relief[x] == Top(Board(), x, HEIGHT)
      ensures forall z | 0 <= z < WIDTH && z != x :: relief[z] == old(relief[z])
    {
      relief[x] := -1;
      var y := HEIGHT - 1;
      while y >= 0
        invariant -1 <= y < HEIGHT && relief[x] == -1
        invariant Top(Board(), x, HEIGHT) == Top(Board(), x, y + 1)
        invariant forall z | 0 <= z < WIDTH && z != x :: relief[z] == old(relief[z])
      {
        assert Board()[y][x].filled == rows[y][x];
        if rows[y][x] {
          relief[x] := y;
          break;
        }
        y := y - 1;
      }
    }

    method RecalcRelief()
      requires Valid()
      modifies relief
      ensures relief[..] == Tops(Board())
    {
      for x := 0 to WIDTH
        invariant forall z | 0 <= z < x :: relief[z] == Top(Board(), z, HEIGHT)
      {
        FindTop(x);
      }
    }

    /** Takes out every full row; the loop ends because either a full row goes or the next row is looked at. */
    method TakeOutRows() returns (cleared: nat)
      requires Valid()
      modifies rows, colors
      ensures cleared == FullRows(old(Board())) && Board() == Cleared(old(Board()))
    {
      cleared := 0;
      var y := 0;
      while y < HEIGHT
        invariant 0 <= y <= HEIGHT
        invariant cleared + FullRows(Board()) == FullRows(old(Board()))
        invariant Cleared(Board()) == Cleared(old(Board()))
        invariant forall i | 0 <= i < y :: !Full(Board()[i])
        decreases FullRows(Board()), HEIGHT - y
      {
        var full := RowFull(y);
        if full {
          ghost var before := Board();
          RemovalClears(before, y);
          RemoveRow(y);
          assert forall i | 0 <= i < y :: Board()[i] == before[i];
          cleared := cleared + 1;
        } else {
          y := y + 1;
        }
      }
      NothingFull(Board());
      assert EmptyRows(0) == [] && Board() + [] == Board();
    }

    /** Lines, score and level after so many rows, of which four count. */
    method Reckon(rowsCleared: nat) returns (cleared: nat)
      modifies this`lines, this`score, this`level
      ensures cleared == Min(rowsCleared, 4) && lines == (old(lines) + rowsCleared) % 0x1_0000
      ensures score == (old(score) + Reward(cleared) * old(level)) % 0x1_0000_0000 && level == Level(lines)
    {
      lines := (lines + rowsCleared) % 0x1_0000;
      cleared := if rowsCleared > 4 then 4 else rowsCleared;
      score := (score + Reward(cleared) * level) % 0x1_0000_0000;
      level := (1 + lines / 10) % 256;
      if level > 20 {
        level := 20;
      }
    }

    method ClearAll() returns (cleared: nat)
      requires Valid()
      modifies this, rows, colors, relief
      ensures (State(), cleared) == ClearLines(old(State()))
    {
      cleared := TakeOutRows();
      if cleared > 0 {
        cleared := Reckon(cleared);
        RecalcRelief();
      } else {
        NothingFullKeeps(old(Board()));
      }
    }

    method SetOne(x: int, y: int, color: nat)
      requires Valid()
      modifies rows, colors, relief
      ensures Board() == SetCell(old(Board()), x, y, color)
      ensures relief[..] == Raise(old(relief[..]), x, y)
    {
      if x < 0 || x >= WIDTH || y < 0 || y >= HEIGHT {
        return;
      }
      rows[y] := rows[y][x := true];
      colors[y, x] := color;
      if y > relief[x] {
        relief[x] := y;
      }
      forall i | 0 <= i < HEIGHT ensures RowAt(i) == SetCell(old(Board()), x, y, color)[i] {
        if i == y {
          assert RowAt(y) == old(RowAt(y))[x := Cell(true, color)];
        } else {
          assert RowAt(i) == old(RowAt(i));
        }
      }
    }

    method BlockAdd(p: Piece)
      requires Valid()
      modifies rows, colors, relief
      ensures State() == Add(old(State()), p)
    {
      var i := 0;
      while i < 4
        invariant 0 <= i <= 4
        invariant Board() == Locked(old(Board()), p, i)
        invariant relief[..] == Relieved(old(relief[..]), p, i)
      {
        SetOne(CellX(p, i), CellY(p, i), p.color);
        i := i + 1;
      }
    }

    method CellCollides(x: int, y: int) returns (hit: bool)
      requires Valid()
      ensures hit == Hits(Board(), x, y)
    {
      if x < 0 || x >= WIDTH || y < 0 {
        return true;
      }
      if y >= HEIGHT {
        return false;
      }
      assert Board()[y][x].filled == rows[y][x];
      return rows[y][x];
    }

    method BlockCollides(p: Piece) returns (hit: bool)
      requires Valid()
      ensures hit == Collides(Board(), p)
    {
      var i := 0;
      while i < 4
        invariant 0 <= i <= 4
        invariant forall j | 0 <= j < i :: !Hits(Board(), CellX(p, j), CellY(p, j))
      {
        hit := CellCollides(CellX(p, i), CellY(p, i));
        if hit {
          return;
        }
        i := i + 1;
      }
      hit := false;
    }
  }

  lemma {:induction false} NothingFullKeeps(b: seq<Row>)
    requires FullRows(b) == 0
    ensures Cleared(b) == b
  {
    NoFullRows(b);
    NothingFull(b);
    assert EmptyRows(0) == [];
  }

  /** The next of the shape's rotations, in place. */
  function Rotated(p: Piece): Piece {
    var n := Rotations(p.shape);
    p.(rot := (p.rot + 1 + n) % n)
  }

  /** A rotated piece that collides, one column aside or turned back. */
  function Kicked(b: seq<Row>, q: Piece, was: nat): Piece {
    if !Collides(b, q.(x := q.x - 1)) then q.(x := q.x - 1)
    else if !Collides(b, q.(x := q.x + 1)) then q.(x := q.x + 1)
    else q.(rot := was)
  }

  lemma RotateKicks(b: seq<Row>, p: Piece)
    ensures var q := Rotated(p);
            Rotate(b, p) == if Collides(b, q) then Kicked(b, q, p.rot) else q
  {
  }

  /** The piece in play, changed in place. */
  class Block {
    var x: int
    var y: int
    var shape: nat
    var rot: nat
    var color: nat

    ghost function State(): Piece
      reads this
    {
      Piece(x, y, shape, rot, color)
    }

    function Value(): (p: Piece)
      reads this
      ensures p == State()
    {
      Piece(x, y, shape, rot, color)
    }

    constructor (kind: nat)
      requires kind < 7
      ensures State() == TetrisGame.Spawn(kind)
    {
      x, y, shape, rot, color := (WIDTH - Width(kind)) / 2, HEIGHT - Height(kind), kind, 0, Color(kind);
    }

    method Spawn(kind: nat)
      requires kind < 7
      modifies this
      ensures State() == TetrisGame.Spawn(kind)
    {
      shape, rot, color := kind, 0, Color(kind);
      x := (WIDTH - Width(kind)) / 2;
      y := HEIGHT - Height(kind);
    }

    method Step(d: Direction)
      modifies this`x, this`y
      ensures State() == Shifted(old(State()), d)
    {
      match d {
        case Left => x := x - 1;
        case Right => x := x + 1;
        case Down => y := y - 1;
        case Up => y := y + 1;
      }
    }

    method Shift(g: Field, d: Direction) returns (moved: bool)
      requires g.Valid()
      modifies this
      ensures moved == !Collides(g.Board(), Shifted(old(State()), d))
      ensures State() == Move(g.Board(), old(State()), d)
    {
      var wasX, wasY := x, y;
      Step(d);
      var hit := g.BlockCollides(Value());
      if hit {
        x, y := wasX, wasY;
      }
      moved := !hit;
    }

    /** Tries one column to the left, then one to the right; otherwise the rotation is undone. */
    method Kick(g: Field, was: nat) returns (kicked: bool)
      requires g.Valid()
      modifies this`x, this`rot
      ensures State() == Kicked(g.Board(), old(State()), was)
    {
      x := x - 1;
      var hit := g.BlockCollides(Value());
      kicked := true;
      if hit {
        x := x + 2;
        hit := g.BlockCollides(Value());
        if hit {
          x := x - 1;
          rot := was;
          kicked := false;
        }
      }
    }

    method Turn(g: Field) returns (turned: bool)
      requires g.Valid()
      modifies this
      ensures State() == Rotate(g.Board(), old(State()))
    {
      var was, n := rot, Rotations(shape);
      RotateKicks(g.Board(), State());
      rot := (rot + 1 + n) % n;
      assert State() == Rotated(old(State()));
      turned := true;
      var hit := g.BlockCollides(Value());
      if hit {
        turned := Kick(g, was);
      }
    }

    method Fall(g: Field) returns (distance: nat)
      requires g.Valid()
      modifies this
      ensures State() == Drop(g.Board(), old(State())) && distance == old(y) - y
    {
      distance := 0;
      while true
        invariant Drop(g.Board(), State()) == Drop(g.Board(), old(State()))
        invariant distance == old(y) - y
        invariant shape == old(shape) && rot == old(rot)
        decreases if y > -4 then y + 4 else 0
      {
        y := y - 1;
        var hit := g.BlockCollides(Value());
        if hit {
          y := y + 1;
          break;
        }
        assert !Hits(g.Board(), CellX(State(), 0), CellY(State(), 0));
        OffsetsFit(shape, rot);
        distance := distance + 1;
      }
    }
  }
}
