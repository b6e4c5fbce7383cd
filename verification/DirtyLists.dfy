/** What the tile and block lists hold after a series of writes, and when the pool has a node for all of it. */
module DirtyLists {
  import opened DirtyTiles
  import opened ScreenBuffers

  datatype Lists = Lists(tiles: seq<Place>, blocks: seq<Place>)

  const NO_MARKS := Lists([], [])

  function Used(l: Lists): nat { |l.tiles| + |l.blocks| }

  function TileOf(cell: Place): Place { Place(cell.row / TILE, cell.col / TILE) }

  function BlockOf(cell: Place): Place { Place(cell.row / BLOCK, cell.col / BLOCK) }

  function TilesAcross(n: nat): nat { (n + TILE - 1) / TILE }

  function BlocksAcross(n: nat): nat { (n + BLOCK - 1) / BLOCK }

  /** One write lists its tile first and then its block. */
  function Marked(l: Lists, cell: Place): Lists {
    var t := Lists(Added(l.tiles, TileOf(cell), Used(l)), l.blocks);
    Lists(t.tiles, Added(t.blocks, BlockOf(cell), Used(t)))
  }

  function MarkedAll(l: Lists, cells: seq<Place>): Lists {
    if cells == [] then l else Marked(MarkedAll(l, cells[..|cells| - 1]), cells[|cells| - 1])
  }

  predicate OnGrid(cells: seq<Place>, height: nat, width: nat) {
    forall p | p in cells :: p.row < height && p.col < width
  }

  /** Nothing is listed twice, and only places of a grid. */
  ghost predicate Listing(s: seq<Place>, height: nat, width: nat) { Distinct(s) && OnGrid(s, height, width) }

  predicate Lead(l: Lists, cell: Place) { TileOf(cell) in l.tiles && BlockOf(cell) in l.blocks }

  /** After these writes every written cell has both its tile and its block listed. */
  ghost predicate AllListed(cells: seq<Place>) {
    forall c | c in cells :: Lead(MarkedAll(NO_MARKS, cells), c)
  }

  predicate PoolSuffices(rows: nat, cols: nat) {
    TilesAcross(rows) * TilesAcross(cols) + BlocksAcross(rows) * BlocksAcross(cols) <= POOL
  }

  /** In numbers: tiles of 8 by 8 cells, blocks of 32 by 32, and 512 nodes. */
  lemma SufficesInNumbers(rows: nat, cols: nat, down: nat, across: nat, blocksDown: nat, blocksAcross: nat)
    requires 8 * (down - 1) < rows <= 8 * down && 8 * (across - 1) < cols <= 8 * across
    requires 32 * (blocksDown - 1) < rows <= 32 * blocksDown && 32 * (blocksAcross - 1) < cols <= 32 * blocksAcross
    ensures PoolSuffices(rows, cols) <==> down * across + blocksDown * blocksAcross <= 512
  {
    assert TilesAcross(rows) == down && TilesAcross(cols) == across;
    assert BlocksAcross(rows) == blocksDown && BlocksAcross(cols) == blocksAcross;
  }

  lemma LastPlace(n: nat, y: nat)
    requires y < n
    ensures y / TILE < TilesAcross(n) && y / BLOCK < BlocksAcross(n)
  {
  }

  lemma ListingAdded(s: seq<Place>, height: nat, width: nat, p: Place, used: nat)
    requires Listing(s, height, width) && p.row < height && p.col < width
    ensures Listing(Added(s, p, used), height, width)
    ensures forall q | q in s :: q in Added(s, p, used)
    ensures used < POOL ==> p in Added(s, p, used)
  {
  }

  // ---------------------------------------------------------------- enough nodes

  ghost predicate OnScreen(l: Lists, rows: nat, cols: nat) {
    && Used(l) <= POOL
    && Listing(l.tiles, TilesAcross(rows), TilesAcross(cols)) && Listing(l.blocks, BlocksAcross(rows), BlocksAcross(cols))
  }

  /** A screen's place that is not listed leaves a node free, if there is one for every place. */
  lemma RoomForTile(l: Lists, rows: nat, cols: nat, p: Place)
    requires OnScreen(l, rows, cols) && PoolSuffices(rows, cols)
    requires p.row < TilesAcross(rows) && p.col < TilesAcross(cols) && p !in l.tiles
    ensures Used(l) < POOL
  {
    GridPigeonhole(l.tiles, TilesAcross(rows), TilesAcross(cols), p);
    GridBound(l.blocks, BlocksAcross(rows), BlocksAcross(cols));
  }

  lemma RoomForBlock(l: Lists, rows: nat, cols: nat, p: Place)
    requires OnScreen(l, rows, cols) && PoolSuffices(rows, cols)
    requires p.row < BlocksAcross(rows) && p.col < BlocksAcross(cols) && p !in l.blocks
    ensures Used(l) < POOL
  {
    GridPigeonhole(l.blocks, BlocksAcross(rows), BlocksAcross(cols), p);
    GridBound(l.tiles, TilesAcross(rows), TilesAcross(cols));
  }

  lemma MarkedOnScreen(l: Lists, rows: nat, cols: nat, cell: Place)
    requires OnScreen(l, rows, cols) && cell.row < rows && cell.col < cols
    ensures OnScreen(Marked(l, cell), rows, cols)
    ensures forall c | Lead(l, c) :: Lead(Marked(l, cell), c)
    ensures PoolSuffices(rows, cols) ==> Lead(Marked(l, cell), cell)
  {
    LastPlace(rows, cell.row);
    LastPlace(cols, cell.col);
    var t := Lists(Added(l.tiles, TileOf(cell), Used(l)), l.blocks);
    ListingAdded(l.tiles, TilesAcross(rows), TilesAcross(cols), TileOf(cell), Used(l));
    ListingAdded(l.blocks, BlocksAcross(rows), BlocksAcross(cols), BlockOf(cell), Used(t));
    if PoolSuffices(rows, cols) && TileOf(cell) !in l.tiles {
      RoomForTile(l, rows, cols, TileOf(cell));
    }
    if PoolSuffices(rows, cols) && BlockOf(cell) !in l.blocks {
      RoomForBlock(t, rows, cols, BlockOf(cell));
    }
  }

  lemma {:induction false} MarkedAllOnScreen(rows: nat, cols: nat, cells: seq<Place>)
    requires OnGrid(cells, rows, cols)
    ensures OnScreen(MarkedAll(NO_MARKS, cells), rows, cols)
    ensures PoolSuffices(rows, cols) ==> AllListed(cells)
    decreases |cells|
  {
    if cells != [] {
      var most, last := cells[..|cells| - 1], cells[|cells| - 1];
      assert last in cells && forall c | c in most :: c in cells;
      MarkedAllOnScreen(rows, cols, most);
      MarkedOnScreen(MarkedAll(NO_MARKS, most), rows, cols, last);
      assert forall c | c in cells :: c in most || c == last;
    }
  }

  // ---------------------------------------------------------------- too few nodes

  /** The places of one row of a grid, and of all its rows. */
  function GridRow(row: nat, width: nat): seq<Place> {
    if width == 0 then [] else GridRow(row, width - 1) + [Place(row, width - 1)]
  }

  function Grid(height: nat, width: nat): seq<Place> {
    if height == 0 then [] else Grid(height - 1, width) + GridRow(height - 1, width)
  }

  lemma {:induction false} InGridRow(row: nat, width: nat, p: Place)
    ensures p in GridRow(row, width) <==> p.row == row && p.col < width
    decreases width
  {
    if width > 0 {
      InGridRow(row, width - 1, p);
    }
  }

  lemma {:induction false} InGrid(height: nat, width: nat, p: Place)
    ensures p in Grid(height, width) <==> p.row < height && p.col < width
    decreases height
  {
    if height > 0 {
      InGrid(height - 1, width, p);
      InGridRow(height - 1, width, p);
    }
  }

  /** The first cell of a place of the given size. */
  function Corner(p: Place, size: nat): Place { Place(p.row * size, p.col * size) }

  function Corners(height: nat, width: nat, size: nat): seq<Place> {
    var g := Grid(height, width);
    seq(|g|, i requires 0 <= i < |g| => Corner(g[i], size))
  }

  lemma CornerIn(height: nat, width: nat, size: nat, p: Place)
    requires p.row < height && p.col < width
    ensures Corner(p, size) in Corners(height, width, size)
  {
    var g := Grid(height, width);
    InGrid(height, width, p);
    var i :| 0 <= i < |g| && g[i] == p;
    assert Corners(height, width, size)[i] == Corner(p, size);
  }

  lemma CornerOf(height: nat, width: nat, size: nat, c: Place) returns (p: Place)
    requires c in Corners(height, width, size)
    ensures p.row < height && p.col < width && c == Corner(p, size)
  {
    var g := Grid(height, width);
    var i :| 0 <= i < |g| && Corners(height, width, size)[i] == c;
    p := g[i];
    InGrid(height, width, p);
  }

  /** One cell of every block, and then one of every tile. */
  function EveryBlockThenTile(rows: nat, cols: nat): seq<Place> {
    Corners(BlocksAcross(rows), BlocksAcross(cols), BLOCK) + Corners(TilesAcross(rows), TilesAcross(cols), TILE)
  }

  lemma EveryBlockThenTileOnGrid(rows: nat, cols: nat)
    ensures OnGrid(EveryBlockThenTile(rows, cols), rows, cols)
  {
    forall p | p in EveryBlockThenTile(rows, cols) ensures p.row < rows && p.col < cols {
      if p in Corners(BlocksAcross(rows), BlocksAcross(cols), BLOCK) {
        var b := CornerOf(BlocksAcross(rows), BlocksAcross(cols), BLOCK, p);
      } else {
        var t := CornerOf(TilesAcross(rows), TilesAcross(cols), TILE, p);
      }
    }
  }

  lemma {:induction false} MarkedAllJoin(l: Lists, first: seq<Place>, second: seq<Place>)
    ensures MarkedAll(l, first + second) == MarkedAll(MarkedAll(l, first), second)
    decreases |second|
  {
    if second == [] {
      assert first + second == first;
    } else {
      var n := |second| - 1;
      assert (first + second)[..|first| + n] == first + second[..n];
      MarkedAllJoin(l, first, second[..n]);
    }
  }

  /** Once the pool is empty the lists stay as they are. */
  lemma {:induction false} FullStays(l: Lists, cells: seq<Place>)
    requires Used(l) >= POOL
    ensures MarkedAll(l, cells) == l
    decreases |cells|
  {
    if cells != [] {
      FullStays(l, cells[..|cells| - 1]);
    }
  }

  lemma {:induction false} ListsGrow(l: Lists, cells: seq<Place>, p: Place)
    ensures p in l.tiles ==> p in MarkedAll(l, cells).tiles
    ensures p in l.blocks ==> p in MarkedAll(l, cells).blocks
    decreases |cells|
  {
    if cells != [] {
      ListsGrow(l, cells[..|cells| - 1], p);
    }
  }

  /** Lists leave a write out only with the pool empty. */
  lemma {:induction false} ListedOrFull(cells: seq<Place>, c: Place)
    requires c in cells
    ensures Lead(MarkedAll(NO_MARKS, cells), c) || Used(MarkedAll(NO_MARKS, cells)) >= POOL
    decreases |cells|
  {
    var most, last := cells[..|cells| - 1], cells[|cells| - 1];
    if c in most {
      ListedOrFull(most, c);
    } else {
      assert c == last;
    }
  }

  lemma {:induction false} TilesComeFromWrites(cells: seq<Place>, t: Place)
    requires t in MarkedAll(NO_MARKS, cells).tiles
    ensures exists c | c in cells :: TileOf(c) == t
    decreases |cells|
  {
    var most, last := cells[..|cells| - 1], cells[|cells| - 1];
    if t in MarkedAll(NO_MARKS, most).tiles {
      TilesComeFromWrites(most, t);
      var c :| c in most && TileOf(c) == t;
      assert c in cells;
    } else {
      assert last in cells && TileOf(last) == t;
    }
  }

  lemma BlockCorner(b: Place)
    ensures BlockOf(Corner(b, BLOCK)) == b && TileOf(Corner(b, BLOCK)) == Place(4 * b.row, 4 * b.col)
  {
  }

  lemma TileCorner(t: Place)
    ensures TileOf(Corner(t, TILE)) == t
  {
  }

  lemma BlockCornersAreTileCorners(height: nat, width: nat, t: Place) returns (b: Place)
    requires t in MarkedAll(NO_MARKS, Corners(height, width, BLOCK)).tiles
    ensures t == Place(4 * b.row, 4 * b.col)
  {
    var cells := Corners(height, width, BLOCK);
    TilesComeFromWrites(cells, t);
    var cell :| cell in cells && TileOf(cell) == t;
    b := CornerOf(height, width, BLOCK, cell);
    BlockCorner(b);
  }

  /** With all blocks listed there are too few nodes left for the tiles. */
  lemma BlocksLeaveTooFew(l: Lists, rows: nat, cols: nat) returns (t: Place)
    requires Used(l) <= POOL && !PoolSuffices(rows, cols)
    requires forall b: Place | b.row < BlocksAcross(rows) && b.col < BlocksAcross(cols) :: b in l.blocks
    ensures t.row < TilesAcross(rows) && t.col < TilesAcross(cols) && t !in l.tiles
  {
    var all := AllPlaces(BlocksAcross(rows), BlocksAcross(cols));
    var listed := Members(l.blocks);
    PlaceSubset(all, listed);
    t := SomePlaceMissing(l.tiles, TilesAcross(rows), TilesAcross(cols));
  }

  lemma NotOne(n: nat)
    ensures 4 * n != 1
  {
  }

  /** Nodes used up by the first cells of blocks go to no other tile. */
  lemma FullBeforeTiles(height: nat, width: nat, second: seq<Place>, t: Place)
    requires Used(MarkedAll(NO_MARKS, Corners(height, width, BLOCK))) >= POOL && (t.row == 1 || t.col == 1)
    ensures t !in MarkedAll(NO_MARKS, Corners(height, width, BLOCK) + second).tiles
  {
    var first := Corners(height, width, BLOCK);
    MarkedAllJoin(NO_MARKS, first, second);
    FullStays(MarkedAll(NO_MARKS, first), second);
    if t in MarkedAll(NO_MARKS, first).tiles {
      var b := BlockCornersAreTileCorners(height, width, t);
      NotOne(b.row);
      NotOne(b.col);
    }
  }

  lemma BlocksListed(height: nat, width: nat, second: seq<Place>, b: Place)
    requires Used(MarkedAll(NO_MARKS, Corners(height, width, BLOCK))) < POOL && b.row < height && b.col < width
    ensures b in MarkedAll(NO_MARKS, Corners(height, width, BLOCK) + second).blocks
  {
    var first := Corners(height, width, BLOCK);
    MarkedAllJoin(NO_MARKS, first, second);
    BlockCorner(b);
    CornerIn(height, width, BLOCK, b);
    ListedOrFull(first, Corner(b, BLOCK));
    ListsGrow(MarkedAll(NO_MARKS, first), second, b);
  }

  /** On a screen beyond the pool, writing to every block and then to every tile leaves out a tile. */
  lemma SomeTileLeftOut(rows: nat, cols: nat) returns (t: Place)
    requires !PoolSuffices(rows, cols)
    ensures t.row < TilesAcross(rows) && t.col < TilesAcross(cols)
    ensures t !in MarkedAll(NO_MARKS, EveryBlockThenTile(rows, cols)).tiles
  {
    var height, width := BlocksAcross(rows), BlocksAcross(cols);
    var second := Corners(TilesAcross(rows), TilesAcross(cols), TILE);
    if Used(MarkedAll(NO_MARKS, Corners(height, width, BLOCK))) >= POOL {
      ManyTiles(rows, cols);
      t := if TilesAcross(cols) > 1 then Place(0, 1) else Place(1, 0);
      FullBeforeTiles(height, width, second, t);
    } else {
      EveryBlockThenTileOnGrid(rows, cols);
      MarkedAllOnScreen(rows, cols, EveryBlockThenTile(rows, cols));
      forall b: Place | b.row < height && b.col < width
        ensures b in MarkedAll(NO_MARKS, EveryBlockThenTile(rows, cols)).blocks
      {
        BlocksListed(height, width, second, b);
      }
      t := BlocksLeaveTooFew(MarkedAll(NO_MARKS, EveryBlockThenTile(rows, cols)), rows, cols);
    }
  }

  lemma ManyTiles(rows: nat, cols: nat)
    requires !PoolSuffices(rows, cols)
    ensures TilesAcross(rows) > 0 && TilesAcross(cols) > 0 && (TilesAcross(rows) > 1 || TilesAcross(cols) > 1)
  {
    if rows > 0 && cols > 0 && TilesAcross(rows) <= 1 && TilesAcross(cols) <= 1 {
      assert false;
    }
  }

  /** And with it a cell that was written. */
  lemma SomeCellLeftOut(rows: nat, cols: nat) returns (c: Place)
    requires !PoolSuffices(rows, cols)
    ensures c in EveryBlockThenTile(rows, cols)
    ensures TileOf(c) !in MarkedAll(NO_MARKS, EveryBlockThenTile(rows, cols)).tiles
  {
    var t := SomeTileLeftOut(rows, cols);
    c := Corner(t, TILE);
    CornerIn(TilesAcross(rows), TilesAcross(cols), TILE, t);
    TileCorner(t);
  }

  /** Every series of writes finds its tiles and blocks listed if and only if the pool has a node for each of the screen's. */
  lemma AllListedExactlyWhen(rows: nat, cols: nat)
    ensures (forall cells | OnGrid(cells, rows, cols) :: AllListed(cells)) <==> PoolSuffices(rows, cols)
  {
    if PoolSuffices(rows, cols) {
      forall cells | OnGrid(cells, rows, cols) ensures AllListed(cells) {
        MarkedAllOnScreen(rows, cols, cells);
      }
    } else {
      var c := SomeCellLeftOut(rows, cols);
      EveryBlockThenTileOnGrid(rows, cols);
      assert !Lead(MarkedAll(NO_MARKS, EveryBlockThenTile(rows, cols)), c);
    }
  }

  // ---------------------------------------------------------------- the node pool does this

  ghost function ListsOf(pool: TilePool): Lists
    reads pool`tileList, pool`blockList
  {
    Lists(pool.tileList, pool.blockList)
  }

  predicate Addressable(cell: Place) {
    cell.row / TILE < TILES_Y && cell.col / TILE < TILES_X && cell.row / BLOCK < BLOCKS_Y && cell.col / BLOCK < BLOCKS_X
  }

  /** Marking a cell in the linked nodes changes the lists as `Marked` says. */
  method MarkInPool(pool: TilePool, cell: Place)
    requires pool.Valid() && Addressable(cell)
    modifies pool.Footprint()
    ensures pool.Valid() && ListsOf(pool) == Marked(old(ListsOf(pool)), cell)
  {
    pool.AddTile(cell.row / TILE, cell.col / TILE);
    pool.AddBlock(cell.row / BLOCK, cell.col / BLOCK);
  }

  lemma MarkedNext(cells: seq<Place>, i: nat)
    requires i < |cells|
    ensures MarkedAll(NO_MARKS, cells[..i + 1]) == Marked(MarkedAll(NO_MARKS, cells[..i]), cells[i])
  {
    assert cells[..i + 1][..i] == cells[..i];
  }

  /** Any series of writes after a reset, in the linked nodes. */
  method MarkAllInPool(pool: TilePool, cells: seq<Place>)
    requires pool.Valid() && forall c | c in cells :: Addressable(c)
    modifies pool.Footprint()
    ensures pool.Valid() && ListsOf(pool) == MarkedAll(NO_MARKS, cells)
  {
    pool.Reset();
    var i := 0;
    while i < |cells|
      invariant 0 <= i <= |cells| && pool.Valid() && ListsOf(pool) == MarkedAll(NO_MARKS, cells[..i])
    {
      assert cells[i] in cells;
      MarkInPool(pool, cells[i]);
      MarkedNext(cells, i);
      i := i + 1;
    }
    assert cells[..i] == cells;
  }

  /** What following the links of both lists then visits. */
  method VisitMarked(pool: TilePool, cells: seq<Place>) returns (lists: Lists)
    requires pool.Valid() && forall c | c in cells :: Addressable(c)
    modifies pool.Footprint()
    ensures pool.Valid() && lists == MarkedAll(NO_MARKS, cells)
  {
    MarkAllInPool(pool, cells);
    var tiles := pool.WalkTiles();
    var blocks := pool.WalkBlocks();
    lists := Lists(tiles, blocks);
  }
}
