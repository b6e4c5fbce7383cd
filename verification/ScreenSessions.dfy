/** Whole sessions with the screen: what a program draws, and what of it is shown. */
module ScreenSessions {
  import opened Basics
  import opened DirtyLists
  import opened DirtyTiles
  import opened ScreenBuffers
  import opened ScreenRefresh

  /** What a program does with the screen. */
  datatype Step =
    | Write(row: nat, col: nat, cell: Cell)
    | Text(row: nat, col: nat, cells: seq<Cell>)
    | Clear
    | Show

  predicate InRange(s: Step, rows: nat, cols: nat) {
    && (s.Write? ==> s.row < rows && s.col < cols)
    && (s.Text? ==> s.row < rows && s.cells != [] && s.col + |s.cells| <= cols)
  }

  predicate AllInRange(steps: seq<Step>, rows: nat, cols: nat) { forall s | s in steps :: InRange(s, rows, cols) }

  predicate EndsShown(steps: seq<Step>) { steps != [] && steps[|steps| - 1].Show? }

  /** What the cell in row y and column x holds after a step. */
  function Draws(s: Step, was: Cell, y: nat, x: nat): Cell {
    match s
    case Write(row, col, cell) => if y == row && x == col then cell else was
    case Text(row, col, cells) => if y == row && col <= x < col + |cells| then cells[x - col] else was
    case Clear => BLANK
    case Show => was
  }

  function Drawn(steps: seq<Step>, first: Cell, y: nat, x: nat): Cell {
    if steps == [] then first else Draws(steps[|steps| - 1], Drawn(steps[..|steps| - 1], first, y, x), y, x)
  }

  /** The cells written one by one since a refresh, if nothing else was done since. */
  function Since(steps: seq<Step>): Option<seq<Place>> {
    if steps == [] then None
    else
      match steps[|steps| - 1]
      case Show => Some([])
      case Write(row, col, _) =>
        var before := Since(steps[..|steps| - 1]);
        if before.Some? then Some(before.value + [Place(row, col)]) else None
      case _ => None
  }

  /** A cell among those written whose tile found no node. */
  predicate LeftOut(cells: seq<Place>, c: Place) { c in cells && TileOf(c) !in MarkedAll(NO_MARKS, cells).tiles }

  ghost predicate Follows(t: Terminal, done: seq<Step>)
    requires t.Valid()
    reads t, t.screen.prev
  {
    Since(done).Some? ==>
      && OnGrid(Since(done).value, t.screen.rows, t.screen.cols)
      && (t.Listed() ==> t.Marks() == MarkedAll(NO_MARKS, Since(done).value))
      && forall c | c in Since(done).value :: t.screen.prev[c.row, c.col] == NOTHING
  }

  lemma MarkedOneMore(cells: seq<Place>, c: Place)
    ensures MarkedAll(NO_MARKS, cells + [c]) == Marked(MarkedAll(NO_MARKS, cells), c)
  {
    assert (cells + [c])[..|cells|] == cells;
  }

  lemma SinceOneMore(done: seq<Step>, s: Step)
    ensures Since(done + [s]) ==
            if s.Show? then Some([])
            else if s.Write? && Since(done).Some? then Some(Since(done).value + [Place(s.row, s.col)])
            else None
  {
    assert (done + [s])[..|done|] == done;
  }

  method TakeWrite(t: Terminal, row: nat, col: nat, cell: Cell, ghost done: seq<Step>)
    requires t.Valid() && row < t.screen.rows && col < t.screen.cols && Follows(t, done)
    modifies t, t.tiles, t.blocks, t.screen.cur, t.screen.prev
    ensures t.Valid() && Follows(t, done + [Write(row, col, cell)])
    ensures forall y: nat, x: nat | y < t.screen.rows && x < t.screen.cols ::
              t.screen.cur[y, x] == Draws(Write(row, col, cell), old(t.screen.cur[y, x]), y, x)
    ensures t.Fits() && old(t.Tracked()) ==> t.Tracked()
  {
    SinceOneMore(done, Write(row, col, cell));
    if Since(done).Some? {
      MarkedOneMore(Since(done).value, Place(row, col));
    }
    t.Put(row, col, cell);
  }

  method TakeShow(t: Terminal, ghost done: seq<Step>)
    requires t.Valid() && Follows(t, done)
    modifies t, t.tiles, t.blocks, t.screen.cur, t.screen.prev
    ensures t.Valid() && Follows(t, done + [Show])
    ensures forall y: nat, x: nat | y < t.screen.rows && x < t.screen.cols :: t.screen.cur[y, x] == old(t.screen.cur[y, x])
    ensures old(t.Tracked()) ==> t.Tracked() && forall y, x :: !t.screen.Differs(y, x)
    ensures t.Listed() && Since(done).Some? ==>
              forall c | LeftOut(Since(done).value, c) :: t.screen.prev[c.row, c.col] == NOTHING
  {
    SinceOneMore(done, Show);
    t.RefreshTracked();
  }

  method Take(t: Terminal, s: Step, ghost done: seq<Step>)
    requires t.Valid() && InRange(s, t.screen.rows, t.screen.cols) && Follows(t, done)
    modifies t, t.tiles, t.blocks, t.screen.cur, t.screen.prev
    ensures t.Valid() && Follows(t, done + [s])
    ensures forall y: nat, x: nat | y < t.screen.rows && x < t.screen.cols ::
              t.screen.cur[y, x] == Draws(s, old(t.screen.cur[y, x]), y, x)
    ensures t.Fits() && (old(t.Tracked()) || s.Clear?) ==> t.Tracked()
    ensures t.Fits() && old(t.Tracked()) && s.Show? ==> forall y, x :: !t.screen.Differs(y, x)
    ensures s.Show? && t.Listed() && Since(done).Some? ==>
              forall c | LeftOut(Since(done).value, c) :: t.screen.prev[c.row, c.col] == NOTHING
  {
    match s
    case Write(row, col, cell) => TakeWrite(t, row, col, cell, done);
    case Text(row, col, cells) =>
      SinceOneMore(done, s);
      t.Print(row, col, cells);
    case Clear =>
      SinceOneMore(done, s);
      t.Clear();
    case Show => TakeShow(t, done);
  }

  lemma OneMore(steps: seq<Step>, i: nat)
    requires i < |steps|
    ensures steps[..i + 1] == steps[..i] + [steps[i]] && steps[..i + 1][..i] == steps[..i]
  {
  }

  /**
    Over every session on a terminal that is tracked or cleared first: the screen
    holds what was drawn.  If the lists are not used or the pool suffices, a
    refresh leaves nothing different; otherwise no cell is shown that was written
    since the refresh before and whose tile found no node.
   */
  method Session(t: Terminal, steps: seq<Step>)
    requires t.Valid() && (t.Tracked() || (steps != [] && steps[0].Clear?))
    requires AllInRange(steps, t.screen.rows, t.screen.cols)
    modifies t, t.tiles, t.blocks, t.screen.cur, t.screen.prev
    ensures t.Valid() && (t.Fits() ==> t.Tracked())
    ensures forall y: nat, x: nat | y < t.screen.rows && x < t.screen.cols ::
              t.screen.cur[y, x] == Drawn(steps, old(t.screen.cur[y, x]), y, x)
    ensures t.Fits() && EndsShown(steps) ==> forall y, x :: !t.screen.Differs(y, x)
    ensures t.Listed() && EndsShown(steps) && Since(steps[..|steps| - 1]).Some? ==>
              forall c | LeftOut(Since(steps[..|steps| - 1]).value, c) ::
                c.row < t.screen.rows && c.col < t.screen.cols && t.screen.prev[c.row, c.col] == NOTHING
  {
    var i := 0;
    while i < |steps|
      invariant 0 <= i <= |steps| && t.Valid() && Follows(t, steps[..i])
      invariant t.Fits() ==> t.Tracked() || (i == 0 && steps != [] && steps[0].Clear?)
      invariant forall y: nat, x: nat | y < t.screen.rows && x < t.screen.cols ::
                  t.screen.cur[y, x] == Drawn(steps[..i], old(t.screen.cur[y, x]), y, x)
      invariant t.Fits() && EndsShown(steps[..i]) ==> forall y, x :: !t.screen.Differs(y, x)
      invariant t.Listed() && EndsShown(steps[..i]) && Since(steps[..i - 1]).Some? ==>
                  forall c | LeftOut(Since(steps[..i - 1]).value, c) ::
                    c.row < t.screen.rows && c.col < t.screen.cols && t.screen.prev[c.row, c.col] == NOTHING
    {
      assert steps[i] in steps;
      OneMore(steps, i);
      Take(t, steps[i], steps[..i]);
      i := i + 1;
    }
    assert steps[..i] == steps;
  }

  // ---------------------------------------------------------------- beyond the pool

  function Writes(cells: seq<Place>, mark: Cell): (w: seq<Step>)
    ensures |w| == |cells|
  {
    seq(|cells|, i requires 0 <= i < |cells| => Write(cells[i].row, cells[i].col, mark))
  }

  /** Clear and show, write one cell of every block and then of every tile, and show. */
  function StaleSteps(rows: nat, cols: nat, mark: Cell): seq<Step> {
    [Clear, Show] + Writes(EveryBlockThenTile(rows, cols), mark) + [Show]
  }

  lemma {:induction false} SinceWrites(start: seq<Step>, cells: seq<Place>, mark: Cell)
    requires EndsShown(start)
    ensures Since(start + Writes(cells, mark)) == Some(cells)
    decreases |cells|
  {
    if cells == [] {
      assert start + Writes(cells, mark) == start;
    } else {
      var most, c := cells[..|cells| - 1], cells[|cells| - 1];
      SinceWrites(start, most, mark);
      SinceOneMore(start + Writes(most, mark), Write(c.row, c.col, mark));
      assert start + Writes(cells, mark) == start + Writes(most, mark) + [Write(c.row, c.col, mark)];
      assert most + [c] == cells;
    }
  }

  lemma {:induction false} DrawnWrites(start: seq<Step>, cells: seq<Place>, mark: Cell, first: Cell, c: Place)
    requires c in cells
    ensures Drawn(start + Writes(cells, mark), first, c.row, c.col) == mark
    decreases |cells|
  {
    var most, last := cells[..|cells| - 1], cells[|cells| - 1];
    var before, s := start + Writes(most, mark), Write(last.row, last.col, mark);
    assert start + Writes(cells, mark) == before + [s];
    assert (before + [s])[..|before|] == before;
    if c != last {
      DrawnWrites(start, most, mark, first, c);
    }
  }

  lemma StaleStepsInRange(rows: nat, cols: nat, mark: Cell)
    ensures AllInRange(StaleSteps(rows, cols, mark), rows, cols)
  {
    EveryBlockThenTileOnGrid(rows, cols);
  }

  /** On a screen beyond the pool that session leaves out a cell it wrote. */
  lemma StaleStepsLeaveOut(rows: nat, cols: nat, mark: Cell, before: seq<Step>) returns (missed: Place)
    requires !PoolSuffices(rows, cols) && StaleSteps(rows, cols, mark) == before + [Show]
    ensures missed.row < rows && missed.col < cols
    ensures Since(before).Some? && LeftOut(Since(before).value, missed)
    ensures forall first :: Drawn(before + [Show], first, missed.row, missed.col) == mark
  {
    var cells := EveryBlockThenTile(rows, cols);
    EveryBlockThenTileOnGrid(rows, cols);
    assert before == [Clear, Show] + Writes(cells, mark);
    SinceWrites([Clear, Show], cells, mark);
    missed := SomeCellLeftOut(rows, cols);
    forall first ensures Drawn(before + [Show], first, missed.row, missed.col) == mark {
      DrawnWrites([Clear, Show], cells, mark, first, missed);
      assert (before + [Show])[..|before|] == before;
    }
  }

  /**
    On every other screen there is such a session, from any state of the terminal,
    that ends with a refresh and yet with a cell that was written and is not shown.
   */
  method StaleSession(t: Terminal, mark: Cell) returns (steps: seq<Step>, ghost missed: Place)
    requires t.Valid() && !t.Fits() && mark != NOTHING
    modifies t, t.tiles, t.blocks, t.screen.cur, t.screen.prev
    ensures t.Valid() && steps == StaleSteps(t.screen.rows, t.screen.cols, mark)
    ensures AllInRange(steps, t.screen.rows, t.screen.cols) && steps[0].Clear? && EndsShown(steps)
    ensures t.screen.Differs(missed.row, missed.col) && t.screen.cur[missed.row, missed.col] == mark
  {
    steps := StaleSteps(t.screen.rows, t.screen.cols, mark);
    StaleStepsInRange(t.screen.rows, t.screen.cols, mark);
    ghost var before := steps[..|steps| - 1];
    assert steps == before + [Show];
    missed := StaleStepsLeaveOut(t.screen.rows, t.screen.cols, mark, before);
    Session(t, steps);
  }
}
