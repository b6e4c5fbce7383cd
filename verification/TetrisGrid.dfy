/** The Tetris playfield: cells, clearing full rows, and the height of each column. */
module TetrisGrid {
  const WIDTH := 10
  const HEIGHT := 18

  /** A cell's bit in its row's mask, and its colour. */
  datatype Cell = Cell(filled: bool, color: nat)

  type Row = r: seq<Cell> | |r| == WIDTH witness [BLANK, BLANK, BLANK, BLANK, BLANK, BLANK, BLANK, BLANK, BLANK, BLANK]

  const BLANK := Cell(false, 0)

  function EmptyRow(): Row { seq(WIDTH, _ => BLANK) }

  function EmptyRows(n: nat): (b: seq<Row>)
    ensures |b| == n
  {
    seq(n, _ => EmptyRow())
  }

  // ---------------------------------------------------------------- clearing rows

  predicate Full(r: Row) { forall x | 0 <= x < WIDTH :: r[x].filled }

  function KeptRow(r: Row): seq<Row> { if Full(r) then [] else [r] }

  /** The rows that survive, bottom first. */
  function Kept(b: seq<Row>): seq<Row> {
    if b == [] then [] else KeptRow(b[0]) + Kept(b[1..])
  }

  function FullRows(b: seq<Row>): nat {
    if b == [] then 0 else (if Full(b[0]) then 1 else 0) + FullRows(b[1..])
  }

  /** The non-full rows in their order, with empty rows on top. */
  function Cleared(b: seq<Row>): (c: seq<Row>) {
    Kept(b) + EmptyRows(FullRows(b))
  }

  lemma {:induction false} KeptCount(b: seq<Row>)
    ensures |Kept(b)| + FullRows(b) == |b|
    ensures forall r | r in Kept(b) :: r in b && !Full(r)
  {
    if b != [] {
      KeptCount(b[1..]);
    }
  }

  lemma RowsJoin(a: seq<Row>, b: seq<Row>, c: seq<Row>)
    ensures a + (b + c) == (a + b) + c
  {
  }

  lemma {:induction false} KeptJoins(a: seq<Row>, b: seq<Row>)
    ensures Kept(a + b) == Kept(a) + Kept(b)
    ensures FullRows(a + b) == FullRows(a) + FullRows(b)
  {
    if a == [] {
      assert a + b == b;
    } else {
      KeptJoins(a[1..], b);
      assert (a + b)[0] == a[0] && (a + b)[1..] == a[1..] + b;
      RowsJoin(KeptRow(a[0]), Kept(a[1..]), Kept(b));
    }
  }

  lemma {:induction false} NothingFull(b: seq<Row>)
    requires forall r | r in b :: !Full(r)
    ensures Kept(b) == b && FullRows(b) == 0
  {
    if b != [] {
      NothingFull(b[1..]);
      assert b == [b[0]] + b[1..];
    }
  }

  // ---------------------------------------------------------------- counting cells

  function FilledIn(r: seq<Cell>): nat {
    if r == [] then 0 else (if r[0].filled then 1 else 0) + FilledIn(r[1..])
  }

  function Filled(b: seq<Row>): nat {
    if b == [] then 0 else FilledIn(b[0]) + Filled(b[1..])
  }

  lemma {:induction false} FilledInUpdate(r: seq<Cell>, x: nat, c: Cell)
    requires x < |r|
    ensures FilledIn(r[x := c]) + (if r[x].filled then 1 else 0) == FilledIn(r) + if c.filled then 1 else 0
  {
    if x == 0 {
      assert r[0 := c][1..] == r[1..];
    } else {
      FilledInUpdate(r[1..], x - 1, c);
      assert r[x := c][1..] == r[1..][x - 1 := c];
    }
  }

  lemma {:induction false} FilledUpdate(b: seq<Row>, y: nat, r: Row)
    requires y < |b|
    ensures Filled(b[y := r]) + FilledIn(b[y]) == Filled(b) + FilledIn(r)
  {
    if y == 0 {
      assert b[0 := r][1..] == b[1..];
    } else {
      FilledUpdate(b[1..], y - 1, r);
      assert b[y := r][1..] == b[1..][y - 1 := r];
    }
  }

  lemma {:induction false} FilledUniform(r: seq<Cell>, filled: bool)
    requires forall x | 0 <= x < |r| :: r[x].filled == filled
    ensures FilledIn(r) == if filled then |r| else 0
  {
    if r != [] {
      FilledUniform(r[1..], filled);
    }
  }

  lemma {:induction false} FilledJoins(a: seq<Row>, b: seq<Row>)
    ensures Filled(a + b) == Filled(a) + Filled(b)
  {
    if a == [] {
      assert a + b == b;
    } else {
      FilledJoins(a[1..], b);
      assert (a + b)[1..] == a[1..] + b;
    }
  }

  lemma {:induction false} EmptyRowsFilled(n: nat)
    ensures Filled(EmptyRows(n)) == 0
  {
    if n > 0 {
      EmptyRowsFilled(n - 1);
      assert EmptyRows(n)[1..] == EmptyRows(n - 1);
      FilledUniform(EmptyRow(), false);
    }
  }

  /** Clearing removes ten cells for every full row and no others. */
  lemma {:induction false} KeptFilled(b: seq<Row>)
    ensures Filled(Kept(b)) + 10 * FullRows(b) == Filled(b)
  {
    if b != [] {
      KeptFilled(b[1..]);
      FilledJoins(KeptRow(b[0]), Kept(b[1..]));
      if Full(b[0]) {
        FilledUniform(b[0], true);
      } else {
        assert Filled([b[0]]) == FilledIn(b[0]) + Filled([b[0]][1..]);
      }
    }
  }

  lemma ClearedFilled(b: seq<Row>)
    ensures Filled(Cleared(b)) + 10 * FullRows(b) == Filled(b)
  {
    KeptFilled(b);
    FilledJoins(Kept(b), EmptyRows(FullRows(b)));
    EmptyRowsFilled(FullRows(b));
  }

  predicate Settled(b: seq<Row>) { forall r | r in b :: !Full(r) }

  /** A cell is coloured exactly when its bit is set. */
  predicate Painted(r: Row) { forall x | 0 <= x < WIDTH :: r[x].color != 0 <==> r[x].filled }

  predicate AllPainted(b: seq<Row>) { forall r | r in b :: Painted(r) }

  /** After clearing, the board has its height, no full row, and only rows it had, or empty ones. */
  lemma ClearedSettles(b: seq<Row>)
    ensures |Cleared(b)| == |b| && Settled(Cleared(b))
    ensures forall r | r in Cleared(b) :: r in b || r == EmptyRow()
    ensures AllPainted(b) ==> AllPainted(Cleared(b))
  {
    KeptCount(b);
    assert !EmptyRow()[0].filled;
    assert Painted(EmptyRow());
    forall r | r in Cleared(b) ensures !Full(r) && (r in b || r == EmptyRow()) {
      if r !in Kept(b) {
        assert r in EmptyRows(FullRows(b));
      }
    }
  }

  // ---------------------------------------------------------------- column heights

  /** The highest filled row of column x among the first n, or -1. */
  function Top(b: seq<Row>, x: nat, n: nat): (t: int)
    requires x < WIDTH && n <= |b|
    ensures -1 <= t < n
  {
    if n == 0 then -1 else if b[n - 1][x].filled then n - 1 else Top(b, x, n - 1)
  }

  lemma {:induction false} TopIsHighest(b: seq<Row>, x: nat, n: nat)
    requires x < WIDTH && n <= |b|
    ensures var t := Top(b, x, n);
            && (t >= 0 ==> b[t][x].filled)
            && forall y | t < y < n :: !b[y][x].filled
  {
    if n > 0 && !b[n - 1][x].filled {
      TopIsHighest(b, x, n - 1);
    }
  }

  function SetCell(b: seq<Row>, x: int, y: int, color: nat): (c: seq<Row>)
    ensures |c| == |b|
  {
    if 0 <= x < WIDTH && 0 <= y < |b| then b[y := b[y][x := Cell(true, color)]] else b
  }

  lemma {:induction false} TopAfterSet(b: seq<Row>, x: nat, y: nat, color: nat, z: nat, n: nat)
    requires x < WIDTH && z < WIDTH && y < |b| && n <= |b|
    ensures Top(SetCell(b, x, y, color), z, n) ==
            if z == x && y < n && y > Top(b, z, n) then y else Top(b, z, n)
  {
    if n > 0 {
      TopAfterSet(b, x, y, color, z, n - 1);
    }
  }

  lemma SetCellFilled(b: seq<Row>, x: nat, y: nat, color: nat)
    requires x < WIDTH && y < |b|
    ensures Filled(SetCell(b, x, y, color)) == Filled(b) + if b[y][x].filled then 0 else 1
  {
    FilledInUpdate(b[y], x, Cell(true, color));
    FilledUpdate(b, y, b[y][x := Cell(true, color)]);
  }

  lemma SetCellPainted(b: seq<Row>, x: nat, y: nat, color: nat)
    requires x < WIDTH && y < |b| && AllPainted(b) && color != 0
    ensures AllPainted(SetCell(b, x, y, color))
  {
    assert b[y] in b && Painted(b[y]);
    assert Painted(b[y][x := Cell(true, color)]);
  }

  lemma {:induction false} EmptyBoard(n: nat, x: nat)
    requires x < WIDTH
    ensures Top(EmptyRows(n), x, n) == -1
    ensures Settled(EmptyRows(n)) && AllPainted(EmptyRows(n)) && Filled(EmptyRows(n)) == 0
  {
    assert !EmptyRow()[0].filled;
    EmptyRowsFilled(n);
    TopIsHighest(EmptyRows(n), x, n);
  }
}
