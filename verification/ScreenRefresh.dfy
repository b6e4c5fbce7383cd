/** Marking what changed, and refreshing by whichever scan is chosen. */
module ScreenRefresh {
  import opened Basics
  import opened DirtyLists
  import opened DirtyTiles
  import opened ScreenBuffers

  const CLEAN := Box(INT_MAX, -1, INT_MAX, -1)

  function Grown(b: Box, row: int, col: int): Box {
    Box(Min(b.minRow, row), Max(b.maxRow, row), Min(b.minCol, col), Max(b.maxCol, col))
  }

  /** Division of a possibly negative number, truncating toward zero. */
  function Truncated(a: int, d: nat): int
    requires d > 0
  {
    if a >= 0 then a / d else 0 - (0 - a) / d
  }

  /** Four tiles a side make a block. */
  lemma BlockOfTile(y: nat)
    ensures y / TILE / 4 == y / BLOCK
  {
  }

  lemma Ordered(a: nat, b: nat)
    requires a <= b
    ensures a / TILE <= b / TILE && a / BLOCK <= b / BLOCK
  {
  }

  class Terminal {
    const screen: Screen
    const tiles: array2<bool>
    const blocks: array2<bool>
    const tilesX: nat
    const tilesY: nat
    const blocksX: nat
    const blocksY: nat
    const useTiles: bool
    const useSparse: bool
    var tileList: seq<Place>     // as the node pool keeps them
    var blockList: seq<Place>
    var box: Box
    var hasChanges: bool
    var frames: nat
    var beneficial: nat
    var preferSparse: bool

    ghost predicate Sized() {
      && screen.Valid() && screen.rows < INT_MAX && screen.cols < INT_MAX
      && tiles.Length0 == TILES_Y && tiles.Length1 == TILES_X && blocks.Length0 == BLOCKS_Y && blocks.Length1 == BLOCKS_X
      && tiles != blocks
      && tilesX == TilesAcross(screen.cols) && tilesY == TilesAcross(screen.rows)
      && blocksX == BlocksAcross(screen.cols) && blocksY == BlocksAcross(screen.rows)
      && (useTiles ==> tilesX <= TILES_X && tilesY <= TILES_Y && blocksX <= BLOCKS_X && blocksY <= BLOCKS_Y)
    }

    predicate Listed() { useTiles && useSparse }

    function Marks(): Lists
      reads this`tileList, this`blockList
    {
      Lists(tileList, blockList)
    }

    ghost predicate Listings()
      reads this`tileList, this`blockList
    {
      && OnScreen(Marks(), screen.rows, screen.cols)
      && (!Listed() ==> tileList == [] && blockList == [])
    }

    ghost predicate Valid()
      reads this
    {
      && Sized() && Listings()
      && if hasChanges then screen.OnScreen(box) else box == CLEAN && Marks() == NO_MARKS
    }

    /** The lists are not used, or the pool has a node for every tile and block of the screen. */
    predicate Fits() { !Listed() || PoolSuffices(screen.rows, screen.cols) }

    ghost predicate InTileList(y: nat, x: nat)
      reads this`tileList
    {
      Place(y / TILE, x / TILE) in tileList
    }

    ghost predicate InBlockList(y: nat, x: nat)
      reads this`blockList
    {
      Place(y / BLOCK, x / BLOCK) in blockList
    }

    ghost predicate TileFlagged(y: nat, x: nat)
      reads tiles
    {
      y / TILE < tiles.Length0 && x / TILE < tiles.Length1 && tiles[y / TILE, x / TILE]
    }

    ghost predicate BlockFlagged(y: nat, x: nat)
      reads blocks
    {
      y / BLOCK < blocks.Length0 && x / BLOCK < blocks.Length1 && blocks[y / BLOCK, x / BLOCK]
    }

    /** The flags and the lists, as far as they are used, lead every scan to the cell. */
    ghost predicate Reached(y: nat, x: nat)
      reads this`tileList, this`blockList, tiles, blocks
    {
      && (useTiles ==> TileFlagged(y, x) && BlockFlagged(y, x))
      && (useTiles && useSparse ==> InTileList(y, x) && InBlockList(y, x))
    }

    /** The cell is also inside the dirty region. */
    ghost predicate Covered(y: nat, x: nat)
      reads this, tiles, blocks
    {
      hasChanges && InBox(box, y, x) && Reached(y, x)
    }

    /** Every cell that differs from what was last shown is covered. */
    ghost predicate Tracked()
      requires Sized()
      reads this, screen.cur, screen.prev, tiles, blocks
    {
      forall y: nat, x: nat | y < screen.rows && x < screen.cols && screen.Differs(y, x) :: Covered(y, x)
    }

    constructor (rows: nat, cols: nat, sparse: bool)
      requires 0 < rows < INT_MAX && 0 < cols < INT_MAX
      ensures Valid() && fresh(screen) && fresh(screen.cur) && fresh(screen.prev) && fresh(tiles) && fresh(blocks)
      ensures screen.rows == rows && screen.cols == cols && !hasChanges && useSparse == sparse
      ensures tileList == [] && blockList == []
      ensures Listed() <==> sparse && cols <= 1024 && rows <= 512
    {
      screen := new Screen(rows, cols);
      tiles := new bool[TILES_Y, TILES_X]((_, _) => false);
      blocks := new bool[BLOCKS_Y, BLOCKS_X]((_, _) => false);
      var tx, ty := TilesAcross(cols), TilesAcross(rows);
      var bx, down := BlocksAcross(cols), BlocksAcross(rows);
      tilesX, tilesY, blocksX, blocksY := tx, ty, bx, down;
      useTiles := tx <= TILES_X && ty <= TILES_Y && bx <= BLOCKS_X && down <= BLOCKS_Y;
      useSparse := sparse;
      tileList, blockList := [], [];
      box, hasChanges := CLEAN, false;
      frames, beneficial, preferSparse := 0, 0, false;
    }

    // -------------------------------------------------------------- marking

    method MarkTile(r: nat, c: nat)
      requires Valid() && hasChanges && r < tilesY && c < tilesX && useTiles
      modifies tiles, this`tileList
      ensures Valid()
      ensures tiles[r, c] && forall i, j | 0 <= i < TILES_Y && 0 <= j < TILES_X && old(tiles[i, j]) :: tiles[i, j]
      ensures forall p | p in old(tileList) :: p in tileList
      ensures useSparse ==> tileList == Added(old(tileList), Place(r, c), old(|tileList|) + |blockList|)
      ensures useSparse && Fits() ==> Place(r, c) in tileList
    {
      tiles[r, c] := true;
      if useSparse {
        if Fits() && Place(r, c) !in tileList {
          RoomForTile(Marks(), screen.rows, screen.cols, Place(r, c));
        }
        ListingAdded(tileList, tilesY, tilesX, Place(r, c), |tileList| + |blockList|);
        tileList := Added(tileList, Place(r, c), |tileList| + |blockList|);
      }
    }

    method MarkBlock(r: nat, c: nat)
      requires Valid() && hasChanges && r < blocksY && c < blocksX && useTiles
      modifies blocks, this`blockList
      ensures Valid()
      ensures blocks[r, c] && forall i, j | 0 <= i < BLOCKS_Y && 0 <= j < BLOCKS_X && old(blocks[i, j]) :: blocks[i, j]
      ensures forall p | p in old(blockList) :: p in blockList
      ensures useSparse ==> blockList == Added(old(blockList), Place(r, c), |tileList| + old(|blockList|))
      ensures useSparse && Fits() ==> Place(r, c) in blockList
    {
      blocks[r, c] := true;
      if useSparse {
        if Fits() && Place(r, c) !in blockList {
          RoomForBlock(Marks(), screen.rows, screen.cols, Place(r, c));
        }
        ListingAdded(blockList, blocksY, blocksX, Place(r, c), |tileList| + |blockList|);
        blockList := Added(blockList, Place(r, c), |tileList| + |blockList|);
      }
    }

    /** One cell: the bounding box grows, and its tile and block are flagged and listed. */
    method MarkDirty(row: nat, col: nat)
      requires Valid() && row < screen.rows && col < screen.cols
      modifies this`box, this`hasChanges, this`tileList, this`blockList, tiles, blocks
      ensures Valid() && hasChanges
      ensures forall y: nat, x: nat | old(Covered(y, x)) :: Covered(y, x)
      ensures Listed() ==> Marks() == Marked(old(Marks()), Place(row, col))
      ensures Fits() ==> Covered(row, col)
    {
      box := Grown(box, row, col);
      hasChanges := true;
      if useTiles {
        LastPlace(screen.rows, row);
        LastPlace(screen.cols, col);
        MarkTile(row / TILE, col / TILE);
        MarkBlock(row / BLOCK, col / BLOCK);
      }
    }

    method MarkTiles(r1: nat, c1: nat, r2: nat, c2: nat)
      requires Valid() && hasChanges && r2 < tilesY && c2 < tilesX && useTiles
      modifies tiles, this`tileList
      ensures Valid()
      ensures forall i, j | 0 <= i < TILES_Y && 0 <= j < TILES_X && old(tiles[i, j]) :: tiles[i, j]
      ensures forall p | p in old(tileList) :: p in tileList
      ensures forall i, j | r1 <= i <= r2 && c1 <= j <= c2 ::
                tiles[i, j] && (useSparse && Fits() ==> Place(i, j) in tileList)
    {
      var r := r1;
      while r <= r2
        invariant r1 <= r && Valid()
        invariant forall i, j | 0 <= i < TILES_Y && 0 <= j < TILES_X && old(tiles[i, j]) :: tiles[i, j]
        invariant forall p | p in old(tileList) :: p in tileList
        invariant forall i, j | r1 <= i < r && i <= r2 && c1 <= j <= c2 ::
                    tiles[i, j] && (useSparse && Fits() ==> Place(i, j) in tileList)
      {
        var c := c1;
        while c <= c2
          invariant c1 <= c && Valid()
          invariant forall i, j | 0 <= i < TILES_Y && 0 <= j < TILES_X && old(tiles[i, j]) :: tiles[i, j]
          invariant forall p | p in old(tileList) :: p in tileList
          invariant forall i, j | r1 <= i <= r && c1 <= j <= c2 && (i < r || j < c) ::
                      tiles[i, j] && (useSparse && Fits() ==> Place(i, j) in tileList)
        {
          MarkTile(r, c);
          c := c + 1;
        }
        r := r + 1;
      }
    }

    method MarkBlocks(r1: nat, c1: nat, r2: nat, c2: nat)
      requires Valid() && hasChanges && r2 < blocksY && c2 < blocksX && useTiles
      modifies blocks, this`blockList
      ensures Valid()
      ensures forall i, j | 0 <= i < BLOCKS_Y && 0 <= j < BLOCKS_X && old(blocks[i, j]) :: blocks[i, j]
      ensures forall p | p in old(blockList) :: p in blockList
      ensures forall i, j | r1 <= i <= r2 && c1 <= j <= c2 ::
                blocks[i, j] && (useSparse && Fits() ==> Place(i, j) in blockList)
    {
      var r := r1;
      while r <= r2
        invariant r1 <= r && Valid()
        invariant forall i, j | 0 <= i < BLOCKS_Y && 0 <= j < BLOCKS_X && old(blocks[i, j]) :: blocks[i, j]
        invariant forall p | p in old(blockList) :: p in blockList
        invariant forall i, j | r1 <= i < r && i <= r2 && c1 <= j <= c2 ::
                    blocks[i, j] && (useSparse && Fits() ==> Place(i, j) in blockList)
      {
        var c := c1;
        while c <= c2
          invariant c1 <= c && Valid()
          invariant forall i, j | 0 <= i < BLOCKS_Y && 0 <= j < BLOCKS_X && old(blocks[i, j]) :: blocks[i, j]
          invariant forall p | p in old(blockList) :: p in blockList
          invariant forall i, j | r1 <= i <= r && c1 <= j <= c2 && (i < r || j < c) ::
                      blocks[i, j] && (useSparse && Fits() ==> Place(i, j) in blockList)
        {
          MarkBlock(r, c);
          c := c + 1;
        }
        r := r + 1;
      }
    }

    /** Flags and lists all tiles and blocks that a rectangle touches. */
    method ReachRegion(row1: nat, col1: nat, row2: nat, col2: nat)
      requires Valid() && hasChanges && row1 <= row2 < screen.rows && col1 <= col2 < screen.cols
      modifies this`tileList, this`blockList, tiles, blocks
      ensures Valid()
      ensures forall y: nat, x: nat | old(Reached(y, x)) :: Reached(y, x)
      ensures Fits() ==> forall y: nat, x: nat | row1 <= y <= row2 && col1 <= x <= col2 :: Reached(y, x)
    {
      if useTiles {
        LastPlace(screen.rows, row2);
        LastPlace(screen.cols, col2);
        MarkTiles(row1 / TILE, col1 / TILE, row2 / TILE, col2 / TILE);
        MarkBlocks(row1 / BLOCK, col1 / BLOCK, row2 / BLOCK, col2 / BLOCK);
      }
      if Fits() {
        RegionReached(row1, col1, row2, col2);
      }
    }

    /** A rectangle: the bounding box grows to hold it, and all tiles and blocks it touches are flagged and listed. */
    method MarkDirtyRegion(row1: nat, col1: nat, row2: nat, col2: nat)
      requires Valid() && row1 <= row2 < screen.rows && col1 <= col2 < screen.cols
      modifies this`box, this`hasChanges, this`tileList, this`blockList, tiles, blocks
      ensures Valid() && hasChanges
      ensures forall y: nat, x: nat | old(Covered(y, x)) :: Covered(y, x)
      ensures Fits() ==> forall y: nat, x: nat | row1 <= y <= row2 && col1 <= x <= col2 :: Covered(y, x)
    {
      box := Grown(Grown(box, row1, col1), row2, col2);
      hasChanges := true;
      ReachRegion(row1, col1, row2, col2);
    }

    /** Flagging and listing the tiles and blocks between two cells' own reaches every cell between them. */
    lemma RegionReached(row1: nat, col1: nat, row2: nat, col2: nat)
      requires Sized() && row1 <= row2 < screen.rows && col1 <= col2 < screen.cols
      requires useTiles ==> row2 / TILE < tilesY && col2 / TILE < tilesX && row2 / BLOCK < blocksY && col2 / BLOCK < blocksX
      requires useTiles ==> forall i, j | row1 / TILE <= i <= row2 / TILE && col1 / TILE <= j <= col2 / TILE ::
                 tiles[i, j] && (useSparse ==> Place(i, j) in tileList)
      requires useTiles ==> forall i, j | row1 / BLOCK <= i <= row2 / BLOCK && col1 / BLOCK <= j <= col2 / BLOCK ::
                 blocks[i, j] && (useSparse ==> Place(i, j) in blockList)
      ensures forall y: nat, x: nat | row1 <= y <= row2 && col1 <= x <= col2 :: Reached(y, x)
    {
      forall y: nat, x: nat | row1 <= y <= row2 && col1 <= x <= col2 ensures Reached(y, x) {
        Ordered(row1, y);
        Ordered(y, row2);
        Ordered(col1, x);
        Ordered(x, col2);
      }
    }

    /** New contents for one cell; what it showed is forgotten, and the cell marked. */
    method Put(row: nat, col: nat, cell: Cell)
      requires Valid() && row < screen.rows && col < screen.cols
      modifies this`box, this`hasChanges, this`tileList, this`blockList, tiles, blocks, screen.cur, screen.prev
      ensures Valid() && screen.cur[row, col] == cell && screen.prev[row, col] == NOTHING
      ensures forall y: nat, x: nat | y < screen.rows && x < screen.cols && (y != row || x != col) ::
                screen.cur[y, x] == old(screen.cur[y, x]) && screen.prev[y, x] == old(screen.prev[y, x])
      ensures Listed() ==> Marks() == Marked(old(Marks()), Place(row, col))
      ensures Fits() && old(Tracked()) ==> Tracked()
    {
      screen.cur[row, col], screen.prev[row, col] := cell, NOTHING;
      MarkDirty(row, col);
    }

    /** New contents for part of a row, marked as a region. */
    method Print(row: nat, col: nat, cells: seq<Cell>)
      requires Valid() && row < screen.rows && cells != [] && col + |cells| <= screen.cols
      modifies this`box, this`hasChanges, this`tileList, this`blockList, tiles, blocks, screen.cur, screen.prev
      ensures Valid()
      ensures forall y: nat, x: nat | y < screen.rows && x < screen.cols ::
                if y == row && col <= x < col + |cells| then screen.cur[y, x] == cells[x - col] && screen.prev[y, x] == NOTHING
                else screen.cur[y, x] == old(screen.cur[y, x]) && screen.prev[y, x] == old(screen.prev[y, x])
      ensures Fits() && old(Tracked()) ==> Tracked()
    {
      forall x | col <= x < col + |cells| {
        screen.cur[row, x] := cells[x - col];
      }
      forall x | col <= x < col + |cells| {
        screen.prev[row, x] := NOTHING;
      }
      MarkDirtyRegion(row, col, row, col + |cells| - 1);
    }

    /** Blanks the whole screen and marks all of it. */
    method Clear()
      requires Valid()
      modifies this`box, this`hasChanges, this`tileList, this`blockList, tiles, blocks, screen.cur, screen.prev
      ensures Valid()
      ensures forall y: nat, x: nat | y < screen.rows && x < screen.cols ::
                screen.cur[y, x] == BLANK && screen.prev[y, x] == NOTHING
      ensures Fits() ==> Tracked()
    {
      forall y, x | 0 <= y < screen.rows && 0 <= x < screen.cols {
        screen.cur[y, x] := BLANK;
      }
      forall y, x | 0 <= y < screen.rows && 0 <= x < screen.cols {
        screen.prev[y, x] := NOTHING;
      }
      MarkDirtyRegion(0, 0, screen.rows - 1, screen.cols - 1);
    }

    // -------------------------------------------------------------- the scans

    /** Only the listed tiles that meet the box. */
    method SparseScan(b: Box)
      requires Sized() && Listings() && 0 <= b.minRow && 0 <= b.minCol
      modifies screen.prev
      ensures forall y: nat, x: nat | y < screen.rows && x < screen.cols ::
                screen.prev[y, x] == if InTileList(y, x) && InBox(b, y, x) then screen.cur[y, x] else old(screen.prev[y, x])
    {
      var k := 0;
      while k < |tileList|
        invariant 0 <= k <= |tileList|
        invariant forall y: nat, x: nat | y < screen.rows && x < screen.cols ::
                    screen.prev[y, x] == if Place(y / TILE, x / TILE) in tileList[..k] && InBox(b, y, x)
                                         then screen.cur[y, x] else old(screen.prev[y, x])
      {
        ScanListed(tileList[k], b);
        assert tileList[..k + 1] == tileList[..k] + [tileList[k]];
        k := k + 1;
      }
      assert tileList[..k] == tileList;
    }

    method ScanListed(t: Place, b: Box)
      requires Sized() && 0 <= b.minRow && 0 <= b.minCol
      modifies screen.prev
      ensures forall y: nat, x: nat | y < screen.rows && x < screen.cols ::
                screen.prev[y, x] == if Place(y / TILE, x / TILE) == t && InBox(b, y, x)
                                     then screen.cur[y, x] else old(screen.prev[y, x])
    {
      var startRow, startCol := t.row * TILE, t.col * TILE;
      if startRow + TILE - 1 >= b.minRow && startRow <= b.maxRow && startCol + TILE - 1 >= b.minCol && startCol <= b.maxCol {
        screen.ScanTile(t.row, t.col, b);
      }
    }

    /** The listed blocks that meet the box, and in each the listed tiles that do. */
    method BlockScan(b: Box)
      requires Sized() && Listings() && 0 <= b.minRow && 0 <= b.minCol
      modifies screen.prev
      ensures forall y: nat, x: nat | y < screen.rows && x < screen.cols ::
                screen.prev[y, x] == if InBlockList(y, x) && InTileList(y, x) && InBox(b, y, x)
                                     then screen.cur[y, x] else old(screen.prev[y, x])
    {
      var k := 0;
      while k < |blockList|
        invariant 0 <= k <= |blockList|
        invariant forall y: nat, x: nat | y < screen.rows && x < screen.cols ::
                    screen.prev[y, x] == if Place(y / BLOCK, x / BLOCK) in blockList[..k] && InTileList(y, x) && InBox(b, y, x)
                                         then screen.cur[y, x] else old(screen.prev[y, x])
      {
        ScanBlock(blockList[k], b);
        assert blockList[..k + 1] == blockList[..k] + [blockList[k]];
        k := k + 1;
      }
      assert blockList[..k] == blockList;
    }

    method ScanBlock(block: Place, b: Box)
      requires Sized() && Listings() && 0 <= b.minRow && 0 <= b.minCol
      modifies screen.prev
      ensures forall y: nat, x: nat | y < screen.rows && x < screen.cols ::
                screen.prev[y, x] == if Place(y / BLOCK, x / BLOCK) == block && InTileList(y, x) && InBox(b, y, x)
                                     then screen.cur[y, x] else old(screen.prev[y, x])
    {
      var startRow, startCol := block.row * BLOCK, block.col * BLOCK;
      if startRow + BLOCK - 1 < b.minRow || startRow > b.maxRow || startCol + BLOCK - 1 < b.minCol || startCol > b.maxCol {
        return;
      }
      var k := 0;
      while k < |tileList|
        invariant 0 <= k <= |tileList|
        invariant forall y: nat, x: nat | y < screen.rows && x < screen.cols ::
                    screen.prev[y, x] == if Place(y / BLOCK, x / BLOCK) == block && Place(y / TILE, x / TILE) in tileList[..k]
                                            && InBox(b, y, x)
                                         then screen.cur[y, x] else old(screen.prev[y, x])
      {
        var t := tileList[k];
        if t.row / 4 == block.row && t.col / 4 == block.col {
          ScanListed(t, b);
        }
        forall y: nat, x: nat | Place(y / TILE, x / TILE) == t
          ensures Place(y / BLOCK, x / BLOCK) == block <==> t.row / 4 == block.row && t.col / 4 == block.col
        {
          BlockOfTile(y);
          BlockOfTile(x);
        }
        assert tileList[..k + 1] == tileList[..k] + [t];
        k := k + 1;
      }
      assert tileList[..k] == tileList;
    }

    /** Row by row; rows without a change are skipped. */
    method LinearScan(b: Box)
      requires Sized() && Listings() && 0 <= b.minRow && b.maxRow < screen.rows && 0 <= b.minCol <= b.maxCol < screen.cols
      modifies screen.prev
      ensures forall y: nat, x: nat | y < screen.rows && x < screen.cols && InBox(b, y, x) ::
                screen.prev[y, x] == screen.cur[y, x]
      ensures forall y: nat, x: nat | y < screen.rows && x < screen.cols ::
                screen.prev[y, x] == old(screen.prev[y, x]) || screen.prev[y, x] == screen.cur[y, x]
    {
      var y := b.minRow;
      while y <= b.maxRow
        invariant b.minRow <= y
        invariant forall i: nat, x: nat | i < screen.rows && x < screen.cols && InBox(b, i, x) && i < y ::
                    screen.prev[i, x] == screen.cur[i, x]
        invariant forall i: nat, x: nat | i < screen.rows && x < screen.cols ::
                    screen.prev[i, x] == old(screen.prev[i, x]) || screen.prev[i, x] == screen.cur[i, x]
      {
        var changed := screen.RowChanged(y, b.minCol, b.maxCol);
        if changed {
          screen.ScanLine(y, b.minCol, b.maxCol);
        } else {
          forall x: nat | b.minCol <= x <= b.maxCol ensures screen.prev[y, x] == screen.cur[y, x] {
            assert !screen.Differs(y, x);
          }
        }
        y := y + 1;
      }
    }

    /** The flag arrays: dirty blocks that meet the box, and in each the dirty tiles that do. */
    method ArrayScan(b: Box)
      requires Sized() && Listings() && useTiles && 0 <= b.minRow < screen.rows && 0 <= b.minCol
      requires -1 <= b.maxRow < screen.rows && b.minCol <= b.maxCol < screen.cols
      modifies screen.prev
      ensures forall y: nat, x: nat | y < screen.rows && x < screen.cols ::
                screen.prev[y, x] == if BlockFlagged(y, x) && TileFlagged(y, x) && InBox(b, y, x)
                                     then screen.cur[y, x] else old(screen.prev[y, x])
    {
      var lastRow, lastCol := Truncated(b.maxRow, BLOCK), Truncated(b.maxCol, BLOCK);
      var r := b.minRow / BLOCK;
      while r <= lastRow
        invariant b.minRow / BLOCK <= r
        invariant forall y: nat, x: nat | y < screen.rows && x < screen.cols ::
                    screen.prev[y, x] == if y / BLOCK < r && BlockFlagged(y, x) && TileFlagged(y, x) && InBox(b, y, x)
                                         then screen.cur[y, x] else old(screen.prev[y, x])
      {
        ScanBlockRow(r, lastCol, b);
        r := r + 1;
      }
      forall y: nat, x: nat | InBox(b, y, x) ensures y / BLOCK < r {
        Ordered(y, b.maxRow);
      }
    }

    method ScanBlockRow(r: nat, lastCol: int, b: Box)
      requires Sized() && Listings() && useTiles && 0 <= b.minRow && 0 <= b.minCol <= b.maxCol < screen.cols && lastCol == b.maxCol / BLOCK
      modifies screen.prev
      ensures forall y: nat, x: nat | y < screen.rows && x < screen.cols ::
                screen.prev[y, x] == if y / BLOCK == r && BlockFlagged(y, x) && TileFlagged(y, x) && InBox(b, y, x)
                                     then screen.cur[y, x] else old(screen.prev[y, x])
    {
      var c := b.minCol / BLOCK;
      while c <= lastCol
        invariant b.minCol / BLOCK <= c
        invariant forall y: nat, x: nat | y < screen.rows && x < screen.cols ::
                    screen.prev[y, x] == if y / BLOCK == r && x / BLOCK < c && BlockFlagged(y, x) && TileFlagged(y, x)
                                            && InBox(b, y, x)
                                         then screen.cur[y, x] else old(screen.prev[y, x])
      {
        if r < blocksY && c < blocksX && blocks[r, c] {
          ScanFlaggedTiles(r, c, b);
        } else {
          forall y: nat, x: nat | y < screen.rows && x < screen.cols && y / BLOCK == r && x / BLOCK == c
            ensures !BlockFlagged(y, x)
          {
            LastPlace(screen.rows, y);
            LastPlace(screen.cols, x);
          }
        }
        c := c + 1;
      }
      forall y: nat, x: nat | InBox(b, y, x) ensures x / BLOCK < c {
        Ordered(x, b.maxCol);
      }
    }

    /** The dirty tiles of one block, within the screen and the box. */
    method ScanFlaggedTiles(r: nat, c: nat, b: Box)
      requires Sized() && Listings() && useTiles && 0 <= b.minRow && 0 <= b.minCol <= b.maxCol && r < blocksY && c < blocksX
      modifies screen.prev
      ensures forall y: nat, x: nat | y < screen.rows && x < screen.cols ::
                screen.prev[y, x] == if y / BLOCK == r && x / BLOCK == c && TileFlagged(y, x) && InBox(b, y, x)
                                     then screen.cur[y, x] else old(screen.prev[y, x])
    {
      var firstRow, lastRow := Max(r * 4, b.minRow / TILE), Min(Min((r + 1) * 4 - 1, tilesY - 1), Truncated(b.maxRow, TILE));
      var firstCol, lastCol := Max(c * 4, b.minCol / TILE), Min(Min((c + 1) * 4 - 1, tilesX - 1), Truncated(b.maxCol, TILE));
      var i := firstRow;
      while i <= lastRow
        invariant firstRow <= i
        invariant forall y: nat, x: nat | y < screen.rows && x < screen.cols ::
                    screen.prev[y, x] == if firstRow <= y / TILE < i && y / TILE <= lastRow && firstCol <= x / TILE <= lastCol
                                            && TileFlagged(y, x) && InBox(b, y, x)
                                         then screen.cur[y, x] else old(screen.prev[y, x])
      {
        ScanTileLine(i, firstCol, lastCol, b);
        i := i + 1;
      }
      forall y: nat, x: nat | y < screen.rows && x < screen.cols && InBox(b, y, x)
        ensures y / BLOCK == r && x / BLOCK == c <==> firstRow <= y / TILE <= lastRow && firstCol <= x / TILE <= lastCol
      {
        BlockOfTile(y);
        BlockOfTile(x);
        LastPlace(screen.rows, y);
        LastPlace(screen.cols, x);
        Ordered(b.minRow, y);
        Ordered(y, b.maxRow);
        Ordered(b.minCol, x);
        Ordered(x, b.maxCol);
      }
    }

    method ScanTileLine(i: nat, firstCol: nat, lastCol: int, b: Box)
      requires Sized() && Listings() && useTiles && 0 <= b.minRow && 0 <= b.minCol && i < tilesY && lastCol < tilesX
      modifies screen.prev
      ensures forall y: nat, x: nat | y < screen.rows && x < screen.cols ::
                screen.prev[y, x] == if y / TILE == i && firstCol <= x / TILE <= lastCol && TileFlagged(y, x) && InBox(b, y, x)
                                     then screen.cur[y, x] else old(screen.prev[y, x])
    {
      var j := firstCol;
      while j <= lastCol
        invariant firstCol <= j
        invariant forall y: nat, x: nat | y < screen.rows && x < screen.cols ::
                    screen.prev[y, x] == if y / TILE == i && firstCol <= x / TILE < j && x / TILE <= lastCol && TileFlagged(y, x)
                                            && InBox(b, y, x)
                                         then screen.cur[y, x] else old(screen.prev[y, x])
      {
        if tiles[i, j] {
          screen.ScanTile(i, j, b);
        }
        j := j + 1;
      }
    }

    // -------------------------------------------------------------- refreshing

    /** The scan area: the dirty region clamped to the screen. */
    function Clamped(b: Box): Box {
      Box(Min(Max(b.minRow, 0), screen.rows - 1), Min(b.maxRow, screen.rows - 1),
          Min(Max(b.minCol, 0), screen.cols - 1), Min(b.maxCol, screen.cols - 1))
    }

    /** Counts at most a hundred listed tiles and learns over sixty frames whether few of them is usual. */
    method PreferSparse(b: Box) returns (sparse: bool)
      modifies this`frames, this`beneficial, this`preferSparse
      ensures sparse ==> tileList != []
    {
      frames := frames + 1;
      sparse := false;
      if useSparse {
        var count := if |tileList| < 100 then |tileList| else 100;
        var area := Truncated((b.maxRow - b.minRow + 1) * (b.maxCol - b.minCol + 1), TILE * TILE);
        var helps := count > 0 && count < Truncated(area, 3);
        if helps {
          beneficial := beneficial + 1;
        }
        if frames % 60 == 0 {
          if beneficial > 30 {
            preferSparse := true;
          } else if beneficial < 15 {
            preferSparse := false;
          }
          beneficial := 0;
        }
        sparse := helps || (preferSparse && count > 0 && count < Truncated(area, 2));
      }
    }

    method ResetDirtyRegion()
      requires Sized() && Listings()
      modifies this`box, this`hasChanges, this`tileList, this`blockList, tiles, blocks
      ensures Valid() && !hasChanges
      ensures tileList == [] && blockList == []
      ensures useTiles ==> (forall i, j | 0 <= i < TILES_Y && 0 <= j < TILES_X :: !tiles[i, j])
                           && forall i, j | 0 <= i < BLOCKS_Y && 0 <= j < BLOCKS_X :: !blocks[i, j]
    {
      box, hasChanges := CLEAN, false;
      if useTiles {
        forall i, j | 0 <= i < TILES_Y && 0 <= j < TILES_X {
          tiles[i, j] := false;
        }
        forall i, j | 0 <= i < BLOCKS_Y && 0 <= j < BLOCKS_X {
          blocks[i, j] := false;
        }
      }
      if useSparse {
        tileList, blockList := [], [];
      }
    }

    /** Brings the scan area up to date by the chosen scan. */
    method Scan(b: Box, sparse: bool)
      requires Sized() && Listings() && 0 <= b.minRow < screen.rows && -1 <= b.maxRow < screen.rows && 0 <= b.minCol <= b.maxCol < screen.cols
      requires sparse ==> tileList != []
      modifies screen.prev
      ensures forall y: nat, x: nat | y < screen.rows && x < screen.cols && InBox(b, y, x) && Reached(y, x) ::
                screen.prev[y, x] == screen.cur[y, x]
      ensures forall y: nat, x: nat | y < screen.rows && x < screen.cols ::
                screen.prev[y, x] == old(screen.prev[y, x]) || screen.prev[y, x] == screen.cur[y, x]
      ensures useTiles && useSparse ==> forall y: nat, x: nat | y < screen.rows && x < screen.cols && !InTileList(y, x) ::
                screen.prev[y, x] == old(screen.prev[y, x])
    {
      if sparse {
        SparseScan(b);
      } else if useTiles {
        if useSparse {
          BlockScan(b);
        } else {
          ArrayScan(b);
        }
      } else {
        LinearScan(b);
      }
    }

    /** Shrinks the dirty region and scans what remains of it. */
    method Render()
      requires Valid() && hasChanges
      modifies this`box, this`hasChanges, this`frames, this`beneficial, this`preferSparse, screen.prev
      ensures forall y: nat, x: nat | y < screen.rows && x < screen.cols ::
                screen.prev[y, x] == old(screen.prev[y, x]) || screen.prev[y, x] == screen.cur[y, x]
      ensures forall y: nat, x: nat | y < screen.rows && x < screen.cols && InBox(old(box), y, x) && Reached(y, x) ::
                screen.prev[y, x] == screen.cur[y, x]
      ensures useTiles && useSparse ==> forall y: nat, x: nat | y < screen.rows && x < screen.cols && !InTileList(y, x) ::
                screen.prev[y, x] == old(screen.prev[y, x])
    {
      var before := box;
      var changed, t := screen.Tighten(before);
      ShrinkKeepsChanges(before, t, changed);
      var area := Clamped(t);
      box, hasChanges := t, changed;
      var sparse := PreferSparse(area);
      ScanWhatRemains(before, area, sparse);
    }

    method ScanWhatRemains(ghost b: Box, area: Box, sparse: bool)
      requires Sized() && Listings()
      requires 0 <= area.minRow < screen.rows && -1 <= area.maxRow < screen.rows && 0 <= area.minCol <= area.maxCol < screen.cols
      requires sparse ==> tileList != []
      requires forall y: nat, x: nat | InBox(b, y, x) && !InBox(area, y, x) ::
                 y < screen.rows && x < screen.cols && screen.prev[y, x] == screen.cur[y, x]
      modifies screen.prev
      ensures forall y: nat, x: nat | y < screen.rows && x < screen.cols ::
                screen.prev[y, x] == old(screen.prev[y, x]) || screen.prev[y, x] == screen.cur[y, x]
      ensures forall y: nat, x: nat | y < screen.rows && x < screen.cols && InBox(b, y, x) && Reached(y, x) ::
                screen.prev[y, x] == screen.cur[y, x]
      ensures useTiles && useSparse ==> forall y: nat, x: nat | y < screen.rows && x < screen.cols && !InTileList(y, x) ::
                screen.prev[y, x] == old(screen.prev[y, x])
    {
      Scan(area, sparse);
    }

    /** The main screen's refresh. */
    method Refresh()
      requires Valid()
      modifies this, tiles, blocks, screen.prev
      ensures Valid() && !hasChanges
      ensures old(hasChanges) ==> tileList == [] && blockList == []
      ensures forall y: nat, x: nat | y < screen.rows && x < screen.cols ::
                screen.prev[y, x] == old(screen.prev[y, x]) || screen.prev[y, x] == screen.cur[y, x]
      ensures forall y: nat, x: nat | y < screen.rows && x < screen.cols && old(Covered(y, x)) ::
                screen.prev[y, x] == screen.cur[y, x]
      ensures useTiles && useSparse ==> forall y: nat, x: nat | y < screen.rows && x < screen.cols && old(!InTileList(y, x)) ::
                screen.prev[y, x] == old(screen.prev[y, x])
    {
      if hasChanges {
        Render();
        ResetDirtyRegion();
      }
    }

    /** A cell of the dirty region that the scan area leaves out has not changed. */
    lemma ShrinkKeepsChanges(b: Box, t: Box, changed: bool)
      requires Sized() && screen.OnScreen(b) && (changed <==> screen.AnyDiffers(b))
      requires if changed then screen.OnScreen(t) && screen.TightWithin(t, b) else t == b.(minRow := INT_MAX, maxRow := -1)
      ensures forall y: nat, x: nat | InBox(b, y, x) && !InBox(Clamped(t), y, x) ::
                y < screen.rows && x < screen.cols && screen.prev[y, x] == screen.cur[y, x]
    {
      forall y: nat, x: nat | InBox(b, y, x) && !InBox(Clamped(t), y, x)
        ensures y < screen.rows && x < screen.cols && screen.prev[y, x] == screen.cur[y, x]
      {
        if changed {
          assert InBox(t, y, x) || !screen.Differs(y, x);
        } else {
          screen.UnchangedBox(b, y, x);
        }
      }
    }

    /** If all that differs is covered, a refresh leaves nothing different. */
    method RefreshTracked()
      requires Valid()
      modifies this, tiles, blocks, screen.prev
      ensures Valid() && !hasChanges
      ensures old(Tracked()) ==> Tracked() && forall y, x :: !screen.Differs(y, x)
      ensures Listed() ==> forall y: nat, x: nat | y < screen.rows && x < screen.cols && old(!InTileList(y, x)) ::
                screen.prev[y, x] == old(screen.prev[y, x])
    {
      assert Tracked() ==> forall y: nat, x: nat | y < screen.rows && x < screen.cols && screen.prev[y, x] != screen.cur[y, x] ::
        screen.Differs(y, x) && Covered(y, x);
      Refresh();
    }
  }
}
