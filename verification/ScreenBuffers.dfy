/** The current and previous screen contents, and the scans that bring the second up to the first. */
module ScreenBuffers {
  import opened Basics

  const TILE := 8
  const BLOCK := 32
  const INT_MAX := 0x7fff_ffff

  datatype Cell = Cell(glyph: char, attr: int)

  const BLANK := Cell(' ', 0)
  const NOTHING := Cell('\0', -1)    // matches no contents, so that the cell is shown again

  /** Rows minRow to maxRow and columns minCol to maxCol, inclusive. */
  datatype Box = Box(minRow: int, maxRow: int, minCol: int, maxCol: int)

  predicate InBox(b: Box, y: int, x: int) { b.minRow <= y <= b.maxRow && b.minCol <= x <= b.maxCol }

  predicate InTile(row: nat, col: nat, y: nat, x: nat) { y / TILE == row && x / TILE == col }

  lemma TileSpan(row: nat, col: nat, y: nat, x: nat)
    ensures InTile(row, col, y, x) <==> row * TILE <= y < (row + 1) * TILE && col * TILE <= x < (col + 1) * TILE
  {
  }

  class Screen {
    const rows: nat
    const cols: nat
    const cur: array2<Cell>
    const prev: array2<Cell>

    ghost predicate Valid() {
      && rows > 0 && cols > 0 && cur != prev
      && cur.Length0 == prev.Length0 == rows && cur.Length1 == prev.Length1 == cols
    }

    ghost predicate Differs(y: int, x: int)
      requires Valid()
      reads cur, prev
    {
      0 <= y < rows && 0 <= x < cols && cur[y, x] != prev[y, x]
    }

    /** A fresh screen: blank contents, and previous contents that match nothing. */
    constructor (rows: nat, cols: nat)
      requires rows > 0 && cols > 0
      ensures Valid() && this.rows == rows && this.cols == cols && fresh(cur) && fresh(prev)
      ensures forall y, x | 0 <= y < rows && 0 <= x < cols :: Differs(y, x)
    {
      this.rows, this.cols := rows, cols;
      cur := new Cell[rows, cols]((_, _) => BLANK);
      prev := new Cell[rows, cols]((_, _) => NOTHING);
    }

    method RowChanged(y: nat, start: nat, end: nat) returns (changed: bool)
      requires Valid() && start <= end
      ensures changed <==> y < rows && end < cols && exists x | start <= x <= end :: Differs(y, x)
    {
      if y >= rows || start >= cols || end >= cols {
        return false;
      }
      var x := start;
      while x <= end
        invariant start <= x <= end + 1
        invariant forall z | start <= z < x :: !Differs(y, z)
      {
        if cur[y, x] != prev[y, x] {
          assert Differs(y, x);
          return true;
        }
        x := x + 1;
      }
      return false;
    }

    method ColChanged(x: nat, start: nat, end: nat) returns (changed: bool)
      requires Valid() && start <= end
      ensures changed <==> x < cols && end < rows && exists y | start <= y <= end :: Differs(y, x)
    {
      if x >= cols || start >= rows || end >= rows {
        return false;
      }
      var y := start;
      while y <= end
        invariant start <= y <= end + 1
        invariant forall z | start <= z < y :: !Differs(z, x)
      {
        if cur[y, x] != prev[y, x] {
          assert Differs(y, x);
          return true;
        }
        y := y + 1;
      }
      return false;
    }

    // -------------------------------------------------------------- shrinking the dirty region

    ghost predicate RowDiffers(y: int, b: Box)
      requires Valid()
      reads cur, prev
    {
      exists x | b.minCol <= x <= b.maxCol :: Differs(y, x)
    }

    ghost predicate ColDiffers(x: int, b: Box)
      requires Valid()
      reads cur, prev
    {
      exists y | b.minRow <= y <= b.maxRow :: Differs(y, x)
    }

    ghost predicate OnScreen(b: Box) { 0 <= b.minRow <= b.maxRow < rows && 0 <= b.minCol <= b.maxCol < cols }

    /** The first and last changed rows within the box, or INT_MAX and -1. */
    method TightenRows(b: Box) returns (top: int, bottom: int)
      requires Valid() && OnScreen(b) && rows < INT_MAX
      ensures if top == INT_MAX then bottom == -1 && forall y | b.minRow <= y <= b.maxRow :: !RowDiffers(y, b)
              else
                && b.minRow <= top <= bottom <= b.maxRow && RowDiffers(top, b) && RowDiffers(bottom, b)
                && forall y | b.minRow <= y <= b.maxRow && RowDiffers(y, b) :: top <= y <= bottom
    {
      top := INT_MAX;
      var y := b.minRow;
      while y <= b.maxRow
        invariant b.minRow <= y <= b.maxRow + 1 && top == INT_MAX
        invariant forall z | b.minRow <= z < y :: !RowDiffers(z, b)
      {
        var changed := RowChanged(y, b.minCol, b.maxCol);
        assert changed <==> RowDiffers(y, b);
        if changed {
          top := y;
          break;
        }
        y := y + 1;
      }
      bottom := -1;
      if top == INT_MAX {
        return;
      }
      y := b.maxRow;
      while y >= top
        invariant top <= y <= b.maxRow && bottom == -1
        invariant forall z | y < z <= b.maxRow :: !RowDiffers(z, b)
      {
        var changed := RowChanged(y, b.minCol, b.maxCol);
        assert changed <==> RowDiffers(y, b);
        if changed {
          bottom := y;
          return;
        }
        y := y - 1;
      }
    }

    method TightenCols(b: Box) returns (left: int, right: int)
      requires Valid() && OnScreen(b) && cols < INT_MAX && exists x | b.minCol <= x <= b.maxCol :: ColDiffers(x, b)
      ensures b.minCol <= left <= right <= b.maxCol && ColDiffers(left, b) && ColDiffers(right, b)
      ensures forall x | b.minCol <= x <= b.maxCol && ColDiffers(x, b) :: left <= x <= right
    {
      ghost var changedCol :| b.minCol <= changedCol <= b.maxCol && ColDiffers(changedCol, b);
      left := INT_MAX;
      var x := b.minCol;
      while x <= b.maxCol
        invariant b.minCol <= x <= b.maxCol + 1 && left == INT_MAX
        invariant forall z | b.minCol <= z < x :: !ColDiffers(z, b)
      {
        var changed := ColChanged(x, b.minRow, b.maxRow);
        assert changed <==> ColDiffers(x, b);
        if changed {
          left := x;
          break;
        }
        x := x + 1;
      }
      assert ColDiffers(changedCol, b);
      assert left <= changedCol;
      right := -1;
      x := b.maxCol;
      while x >= left
        invariant left <= x <= b.maxCol && right == -1
        invariant forall z | x < z <= b.maxCol :: !ColDiffers(z, b)
      {
        var changed := ColChanged(x, b.minRow, b.maxRow);
        assert changed <==> ColDiffers(x, b);
        if changed {
          right := x;
          return;
        }
        x := x - 1;
      }
    }

    /** t holds every changed cell of b, and each of its sides touches one. */
    ghost predicate TightWithin(t: Box, b: Box)
      requires Valid()
      reads cur, prev
    {
      && b.minRow <= t.minRow <= t.maxRow <= b.maxRow && b.minCol <= t.minCol <= t.maxCol <= b.maxCol
      && (forall y, x | InBox(b, y, x) && Differs(y, x) :: InBox(t, y, x))
      && RowDiffers(t.minRow, t) && RowDiffers(t.maxRow, t) && ColDiffers(t.minCol, t) && ColDiffers(t.maxCol, t)
    }

    /** Changed rows and then changed columns bound the changed cells. */
    lemma RowsThenCols(b: Box, r: Box, t: Box)
      requires Valid() && r == b.(minRow := r.minRow, maxRow := r.maxRow) && t == r.(minCol := t.minCol, maxCol := t.maxCol)
      requires b.minRow <= r.minRow <= r.maxRow <= b.maxRow && RowDiffers(r.minRow, b) && RowDiffers(r.maxRow, b)
      requires forall y | b.minRow <= y <= b.maxRow && RowDiffers(y, b) :: r.minRow <= y <= r.maxRow
      requires b.minCol <= t.minCol <= t.maxCol <= b.maxCol && ColDiffers(t.minCol, r) && ColDiffers(t.maxCol, r)
      requires forall x | b.minCol <= x <= b.maxCol && ColDiffers(x, r) :: t.minCol <= x <= t.maxCol
      ensures TightWithin(t, b)
    {
      forall y, x | InBox(b, y, x) && Differs(y, x) ensures InBox(t, y, x) {
        assert RowDiffers(y, b);
        assert ColDiffers(x, r);
      }
      RowStillDiffers(b, r, t, r.minRow);
      RowStillDiffers(b, r, t, r.maxRow);
    }

    lemma RowStillDiffers(b: Box, r: Box, t: Box, y: int)
      requires Valid() && RowDiffers(y, b) && r.minRow <= y <= r.maxRow
      requires forall x | b.minCol <= x <= b.maxCol && ColDiffers(x, r) :: t.minCol <= x <= t.maxCol
      ensures RowDiffers(y, t)
    {
      var x :| b.minCol <= x <= b.maxCol && Differs(y, x);
      assert ColDiffers(x, r);
    }

    lemma ChangedColumn(b: Box, r: Box)
      requires Valid() && RowDiffers(r.minRow, b) && r.minRow <= r.maxRow
      ensures exists x | b.minCol <= x <= b.maxCol :: ColDiffers(x, r)
    {
      var x :| b.minCol <= x <= b.maxCol && Differs(r.minRow, x);
      assert ColDiffers(x, r);
    }

    ghost predicate AnyDiffers(b: Box)
      requires Valid()
      reads cur, prev
    {
      exists y | b.minRow <= y <= b.maxRow :: RowDiffers(y, b)
    }

    lemma UnchangedBox(b: Box, y: int, x: int)
      requires Valid() && !AnyDiffers(b) && InBox(b, y, x)
      ensures !Differs(y, x)
    {
      assert !RowDiffers(y, b);
    }

    /** The tight bounding box of the changed cells, if there are any. */
    method Tighten(b: Box) returns (changed: bool, t: Box)
      requires Valid() && OnScreen(b) && rows < INT_MAX && cols < INT_MAX
      ensures changed <==> AnyDiffers(b)
      ensures changed ==> OnScreen(t) && TightWithin(t, b)
      ensures !changed ==> t == b.(minRow := INT_MAX, maxRow := -1)
    {
      var top, bottom := TightenRows(b);
      var r := b.(minRow := top, maxRow := bottom);
      if top == INT_MAX {
        return false, r;
      }
      ChangedColumn(b, r);
      var left, right := TightenCols(r);
      t := r.(minCol := left, maxCol := right);
      RowsThenCols(b, r, t);
      changed := true;
    }

    // -------------------------------------------------------------- scans

    /** Writes a run of cells out, so that the previous contents match there. */
    method OutputRun(y: nat, start: nat, end: nat)
      requires Valid() && y < rows && start <= end < cols
      modifies prev
      ensures forall i, x | 0 <= i < rows && 0 <= x < cols ::
                prev[i, x] == if i == y && start <= x <= end then cur[i, x] else old(prev[i, x])
    {
      var x := start;
      while x <= end
        invariant start <= x <= end + 1
        invariant forall i, z | 0 <= i < rows && 0 <= z < cols ::
                    prev[i, z] == if i == y && start <= z < x then cur[i, z] else old(prev[i, z])
      {
        prev[y, x] := cur[y, x];
        x := x + 1;
      }
    }

    /** One row of a tile: runs of changed cells with one attribute. */
    method ScanTileRow(y: nat, start: nat, end: nat, maxCol: int)
      requires Valid() && y < rows && end <= cols && end <= maxCol + 1
      modifies prev
      ensures forall i, x | 0 <= i < rows && 0 <= x < cols ::
                prev[i, x] == if i == y && start <= x < end then cur[i, x] else old(prev[i, x])
    {
      var x := start;
      while x < end
        invariant x <= end || x == start
        invariant x >= start
        invariant forall i, z | 0 <= i < rows && 0 <= z < cols ::
                    prev[i, z] == if i == y && start <= z < x then cur[i, z] else old(prev[i, z])
      {
        if cur[y, x] != prev[y, x] {
          var attr, last := cur[y, x].attr, x;
          while last + 1 < end && last + 1 <= maxCol && cur[y, last + 1].attr == attr && cur[y, last + 1] != prev[y, last + 1]
            invariant x <= last < end
          {
            last := last + 1;
          }
          OutputRun(y, x, last);
          x := last + 1;
        } else {
          x := x + 1;
        }
      }
    }

    /** Brings the part of a tile inside the box up to date and touches nothing else. */
    method ScanTile(row: nat, col: nat, b: Box)
      requires Valid() && 0 <= b.minRow && 0 <= b.minCol
      modifies prev
      ensures forall y, x | 0 <= y < rows && 0 <= x < cols ::
                prev[y, x] == if InTile(row, col, y, x) && InBox(b, y, x) then cur[y, x] else old(prev[y, x])
    {
      forall y: nat, x: nat | y < rows && x < cols
        ensures InTile(row, col, y, x) <==> row * TILE <= y < (row + 1) * TILE && col * TILE <= x < (col + 1) * TILE
      {
        TileSpan(row, col, y, x);
      }
      var startRow, endRow := Max(row * TILE, b.minRow), Min(Min((row + 1) * TILE, rows), b.maxRow + 1);
      var startCol, endCol := Max(col * TILE, b.minCol), Min(Min((col + 1) * TILE, cols), b.maxCol + 1);
      var y := startRow;
      while y < endRow
        invariant startRow <= y && (y <= endRow || y == startRow)
        invariant forall i, x | 0 <= i < rows && 0 <= x < cols ::
                    prev[i, x] == if startRow <= i < y && startCol <= x < endCol then cur[i, x] else old(prev[i, x])
      {
        if startCol < endCol {
          ScanTileRow(y, startCol, endCol, b.maxCol);
        }
        y := y + 1;
      }
    }

    /** One row of the linear scan: a run may bridge up to three unchanged cells, but not end with one. */
    method ScanLine(y: nat, minCol: nat, maxCol: int)
      requires Valid() && y < rows && maxCol < cols
      modifies prev
      ensures forall x | minCol <= x <= maxCol :: prev[y, x] == cur[y, x]
      ensures forall i, x | 0 <= i < rows && 0 <= x < cols ::
                prev[i, x] == old(prev[i, x]) || (i == y && prev[i, x] == cur[i, x])
    {
      var x := minCol;
      while x <= maxCol && x < cols
        invariant minCol <= x
        invariant x <= cols || x == minCol
        invariant forall z | minCol <= z < x && z < cols :: prev[y, z] == cur[y, z]
        invariant forall i, z | 0 <= i < rows && 0 <= z < cols ::
                    prev[i, z] == old(prev[i, z]) || (i == y && prev[i, z] == cur[i, z])
        decreases cols - x
      {
        if cur[y, x] != prev[y, x] {
          var last, _ := RunEnd(y, x);
          OutputRun(y, x, last);
          x := last + 1;
        } else {
          x := x + 1;
        }
      }
    }

    /** Four unchanged cells from x on. */
    ghost predicate LongGap(y: int, x: int)
      requires Valid()
      reads cur, prev
    {
      !Differs(y, x) && !Differs(y, x + 1) && !Differs(y, x + 2) && !Differs(y, x + 3)
    }

    /**
      The end of a run from x: same attribute, gaps of at most three unchanged
      cells, the last cell changed, and no longer such run: what follows up to
      `seen` is unchanged, and there the row or the attribute ends or the gap is full.
     */
    method RunEnd(y: nat, x: nat) returns (last: nat, ghost seen: nat)
      requires Valid() && y < rows && x < cols && Differs(y, x)
      ensures x <= last < cols && Differs(y, last)
      ensures last <= seen < cols && seen - last <= 3 && forall z | last < z <= seen :: !Differs(y, z)
      ensures seen + 1 == cols || cur[y, seen + 1].attr != cur[y, x].attr || (seen - last == 3 && !Differs(y, seen + 1))
      ensures forall z | x <= z <= last :: cur[y, z].attr == cur[y, x].attr
      ensures forall z | x <= z <= last - 3 :: !LongGap(y, z)
    {
      last := x;
      var gap := 0;
      while last + 1 < cols && cur[y, last + 1].attr == cur[y, x].attr
        invariant x <= last < cols && 0 <= gap <= 3 && gap <= last - x
        invariant forall z | x <= z <= last :: cur[y, z].attr == cur[y, x].attr
        invariant Differs(y, last - gap) && forall z | last - gap < z <= last :: !Differs(y, z)
        invariant forall z | x <= z <= last - 3 :: !LongGap(y, z)
      {
        if cur[y, last + 1] != prev[y, last + 1] {
          last := last + 1;
          gap := 0;
        } else if gap < 3 {
          last := last + 1;
          gap := gap + 1;
        } else {
          break;
        }
      }
      seen := last;
      while last > x && cur[y, last] == prev[y, last]
        invariant x <= last <= seen && seen - gap <= last && forall z | last < z <= seen :: !Differs(y, z)
        invariant x <= last < cols
        invariant forall z | x <= z <= last :: cur[y, z].attr == cur[y, x].attr
        invariant forall z | x <= z <= last - 3 :: !LongGap(y, z)
      {
        last := last - 1;
      }
      assert Differs(y, last) && last == seen - gap;
    }
  }
}
