/** The pool of list nodes that records dirty tiles and blocks, with bitmaps for membership. */
module DirtyTiles {
  import opened Basics

  const POOL := 512
  const TILES_X := 128
  const TILES_Y := 64
  const BLOCKS_X := 32
  const BLOCKS_Y := 16

  /** A tile or block by row and column. */
  datatype Place = Place(row: nat, col: nat)

  predicate Distinct<T(==)>(s: seq<T>) { forall i, j | 0 <= i < j < |s| :: s[i] != s[j] }

  /** The nodes s are linked in that order from head; -1 ends the list. */
  predicate Chain(next: seq<int>, head: int, s: seq<int>) {
    && (forall i | 0 <= i < |s| :: 0 <= s[i] < |next|)
    && head == (if s == [] then -1 else s[0])
    && (forall i | 0 <= i < |s| - 1 :: next[s[i]] == s[i + 1])
    && (s != [] ==> next[s[|s| - 1]] == -1)
  }

  /** Which list a node is in. */
  datatype Owner = Free | Tile | Block

  /** A node list owned as a whole: linked, without repetition, all marked with its owner. */
  predicate Owned(next: seq<int>, head: int, s: seq<int>, owner: seq<Owner>, o: Owner) {
    && Chain(next, head, s) && Distinct(s) && |owner| == |next|
    && forall i | 0 <= i < |s| :: owner[s[i]] == o
  }

  lemma OwnedElsewhere(next: seq<int>, head: int, s: seq<int>, owner: seq<Owner>, o: Owner, node: int, link: int, p: Owner)
    requires Owned(next, head, s, owner, o) && 0 <= node < |next| && owner[node] != o && p != o
    ensures Owned(next[node := link], head, s, owner[node := p], o)
  {
  }

  lemma OwnedPop(next: seq<int>, head: int, s: seq<int>, owner: seq<Owner>, o: Owner, link: int, p: Owner)
    requires Owned(next, head, s, owner, o) && s != [] && p != o
    ensures Owned(next[head := link], next[head], s[1..], owner[head := p], o)
  {
    assert forall i | 0 <= i < |s| - 1 :: s[1..][i] == s[i + 1] && s[i + 1] != s[0];
  }

  lemma OwnedPush(next: seq<int>, head: int, s: seq<int>, owner: seq<Owner>, o: Owner, node: int)
    requires Owned(next, head, s, owner, o) && 0 <= node < |next| && owner[node] != o
    ensures Owned(next[node := head], node, [node] + s, owner[node := o], o)
  {
    var t := [node] + s;
    assert forall i | 0 < i < |t| :: t[i] == s[i - 1] && t[i] != node;
  }

  function Following(i: int, n: nat): int { if i < n - 1 then i + 1 else -1 }

  function AllLinked(n: nat): (s: seq<int>)
    ensures |s| == n
  {
    seq(n, i => Following(i, n))
  }

  function Ascending(n: nat): (s: seq<int>)
    ensures |s| == n
  {
    seq(n, i => i)
  }

  /** The initial free list runs through the whole pool. */
  lemma AllFree(n: nat)
    requires n > 0
    ensures Owned(AllLinked(n), 0, Ascending(n), seq(n, _ => Free), Free)
  {
  }

  /** The places recorded in the nodes, first in the list first. */
  function Places(row: seq<nat>, col: seq<nat>, s: seq<int>): (p: seq<Place>)
    requires |row| == |col| && forall i | 0 <= i < |s| :: 0 <= s[i] < |row|
    ensures |p| == |s|
  {
    seq(|s|, i requires 0 <= i < |s| => Place(row[s[i]], col[s[i]]))
  }

  /** The bit that stands for a place. */
  function Number(p: Place, width: nat): nat { p.row * width + p.col }

  lemma NumberBelow(p: Place, height: nat, width: nat)
    requires p.row < height && p.col < width
    ensures Number(p, width) < height * width
  {
    MulMonotone(p.row + 1, height, width);
  }

  lemma NumberApart(p: Place, q: Place, width: nat)
    requires p.col < width && q.col < width && Number(p, width) == Number(q, width)
    ensures p == q
  {
    if p.row < q.row {
      MulMonotone(p.row + 1, q.row, width);
    } else if q.row < p.row {
      MulMonotone(q.row + 1, p.row, width);
    }
  }

  predicate Bit(bits: seq<bool>, width: nat, p: Place) { Number(p, width) < |bits| && bits[Number(p, width)] }

  /** A bitmap says exactly which places of its grid are listed. */
  ghost predicate Shows(bits: seq<bool>, height: nat, width: nat, s: seq<Place>) {
    && |bits| == height * width
    && (forall p | p in s :: p.row < height && p.col < width)
    && forall p: Place | p.row < height && p.col < width :: Bit(bits, width, p) <==> p in s
  }

  lemma ShowsMore(bits: seq<bool>, height: nat, width: nat, s: seq<Place>, q: Place)
    requires Shows(bits, height, width, s) && q.row < height && q.col < width
    ensures Number(q, width) < |bits|
    ensures Shows(bits[Number(q, width) := true], height, width, [q] + s)
  {
    NumberBelow(q, height, width);
    var more := bits[Number(q, width) := true];
    forall p: Place | p.row < height && p.col < width ensures Bit(more, width, p) <==> p in [q] + s {
      NumberBelow(p, height, width);
      if Number(p, width) == Number(q, width) {
        NumberApart(p, q, width);
      }
    }
  }

  lemma ShowsNone(bits: seq<bool>, height: nat, width: nat)
    requires |bits| == height * width && forall i | 0 <= i < |bits| :: !bits[i]
    ensures Shows(bits, height, width, [])
  {
  }

  lemma PlacesElsewhere(row: seq<nat>, col: seq<nat>, s: seq<int>, owner: seq<Owner>, o: Owner, node: int, r: nat, c: nat)
    requires |row| == |col| == |owner| && 0 <= node < |row| && owner[node] != o
    requires forall i | 0 <= i < |s| :: 0 <= s[i] < |row| && owner[s[i]] == o
    ensures Places(row[node := r], col[node := c], s) == Places(row, col, s)
    ensures Places(row[node := r], col[node := c], [node] + s) == [Place(r, c)] + Places(row, col, s)
  {
    var t := [node] + s;
    assert forall i | 0 < i < |t| :: t[i] == s[i - 1];
  }

  /** A place already listed is not listed again; one that finds every node in use is dropped. */
  function Added(s: seq<Place>, p: Place, used: nat): seq<Place> {
    if p in s || used >= POOL then s else [p] + s
  }

  class TilePool {
    const row: array<nat>
    const col: array<nat>
    const next: array<int>
    var free: int
    var tiles: int
    var blocks: int
    var used: nat
    const tileBits: array<bool>
    const blockBits: array<bool>
    ghost var owner: seq<Owner>
    ghost var freeNodes: seq<int>
    ghost var tileNodes: seq<int>
    ghost var blockNodes: seq<int>
    ghost var tileList: seq<Place>    // what the lists record, first node first
    ghost var blockList: seq<Place>

    ghost function Footprint(): set<object> { {this, row, col, next, tileBits, blockBits} }

    /** The three lists share out the nodes. */
    ghost predicate Linked()
      reads this, row, col, next
    {
      && row.Length == col.Length == next.Length == POOL && row != col
      && Owned(next[..], free, freeNodes, owner, Free)
      && Owned(next[..], tiles, tileNodes, owner, Tile)
      && Owned(next[..], blocks, blockNodes, owner, Block)
      && |freeNodes| + |tileNodes| + |blockNodes| == POOL
      && used == |tileNodes| + |blockNodes|
    }

    ghost function TilesLinked(): seq<Place>
      requires Linked()
      reads this, row, col, next
    {
      Places(row[..], col[..], tileNodes)
    }

    ghost function BlocksLinked(): seq<Place>
      requires Linked()
      reads this, row, col, next
    {
      Places(row[..], col[..], blockNodes)
    }

    /** Membership in the lists is what the bitmaps say, and nothing is listed twice. */
    ghost predicate Mapped()
      reads this, tileBits, blockBits
    {
      && tileBits != blockBits
      && Shows(tileBits[..], TILES_Y, TILES_X, tileList) && Shows(blockBits[..], BLOCKS_Y, BLOCKS_X, blockList)
      && Distinct(tileList) && Distinct(blockList)
    }

    ghost predicate Valid()
      reads Footprint()
    {
      && Mapped()
      && Linked() && tileList == TilesLinked() && blockList == BlocksLinked()
    }

    constructor ()
      ensures Valid() && fresh(Footprint()) && tileList == [] && blockList == []
    {
      row := new nat[POOL](_ => 0);
      col := new nat[POOL](_ => 0);
      next := new int[POOL](i => Following(i, POOL));
      free, tiles, blocks, used := 0, -1, -1, 0;
      tileBits := new bool[TILES_X * TILES_Y](_ => false);
      blockBits := new bool[BLOCKS_X * BLOCKS_Y](_ => false);
      owner := seq(POOL, _ => Free);
      freeNodes := Ascending(POOL);
      tileNodes, blockNodes := [], [];
      tileList, blockList := [], [];
      new;
      assert next[..] == AllLinked(POOL);
      AllFree(POOL);
      ShowsNone(tileBits[..], TILES_Y, TILES_X);
      ShowsNone(blockBits[..], BLOCKS_Y, BLOCKS_X);
    }

    /** Takes a node off the free list and puts it at the front of the tile list. */
    method PushTile(r: nat, c: nat) returns (ok: bool)
      requires Linked()
      modifies this, row, col, next
      ensures tileList == old(tileList) && blockList == old(blockList)
      ensures Linked() && BlocksLinked() == old(BlocksLinked())
      ensures ok == (|old(TilesLinked())| + |old(BlocksLinked())| < POOL)
      ensures TilesLinked() == if ok then [Place(r, c)] + old(TilesLinked()) else old(TilesLinked())
    {
      if free == -1 || used >= POOL {
        return false;
      }
      var node := free;
      OwnedPop(next[..], free, freeNodes, owner, Free, tiles, Tile);
      OwnedPush(next[..], tiles, tileNodes, owner, Tile, node);
      OwnedElsewhere(next[..], blocks, blockNodes, owner, Block, node, tiles, Tile);
      PlacesElsewhere(row[..], col[..], tileNodes, owner, Tile, node, r, c);
      PlacesElsewhere(row[..], col[..], blockNodes, owner, Block, node, r, c);
      free := next[node];
      row[node], col[node] := r, c;
      next[node] := tiles;
      tiles := node;
      used := used + 1;
      ok := true;
      owner := owner[node := Tile];
      freeNodes, tileNodes := freeNodes[1..], [node] + tileNodes;
    }

    method PushBlock(r: nat, c: nat) returns (ok: bool)
      requires Linked()
      modifies this, row, col, next
      ensures tileList == old(tileList) && blockList == old(blockList)
      ensures Linked() && TilesLinked() == old(TilesLinked())
      ensures ok == (|old(TilesLinked())| + |old(BlocksLinked())| < POOL)
      ensures BlocksLinked() == if ok then [Place(r, c)] + old(BlocksLinked()) else old(BlocksLinked())
    {
      if free == -1 || used >= POOL {
        return false;
      }
      var node := free;
      OwnedPop(next[..], free, freeNodes, owner, Free, blocks, Block);
      OwnedPush(next[..], blocks, blockNodes, owner, Block, node);
      OwnedElsewhere(next[..], tiles, tileNodes, owner, Tile, node, blocks, Block);
      PlacesElsewhere(row[..], col[..], tileNodes, owner, Tile, node, r, c);
      PlacesElsewhere(row[..], col[..], blockNodes, owner, Block, node, r, c);
      free := next[node];
      row[node], col[node] := r, c;
      next[node] := blocks;
      blocks := node;
      used := used + 1;
      ok := true;
      owner := owner[node := Block];
      freeNodes, blockNodes := freeNodes[1..], [node] + blockNodes;
    }

    method NoteTile(r: nat, c: nat)
      requires Linked() && Mapped() && r < TILES_Y && c < TILES_X && Place(r, c) !in tileList
      requires TilesLinked() == [Place(r, c)] + tileList && BlocksLinked() == blockList
      modifies this`tileList, tileBits
      ensures Valid() && tileList == [Place(r, c)] + old(tileList)
    {
      ghost var p := Place(r, c);
      ShowsMore(tileBits[..], TILES_Y, TILES_X, tileList, p);
      DistinctPush(tileList, p);
      tileBits[r * TILES_X + c] := true;
      tileList := [p] + tileList;
    }

    method NoteBlock(r: nat, c: nat)
      requires Linked() && Mapped() && r < BLOCKS_Y && c < BLOCKS_X && Place(r, c) !in blockList
      requires BlocksLinked() == [Place(r, c)] + blockList && TilesLinked() == tileList
      modifies this`blockList, blockBits
      ensures Valid() && blockList == [Place(r, c)] + old(blockList)
    {
      ghost var p := Place(r, c);
      ShowsMore(blockBits[..], BLOCKS_Y, BLOCKS_X, blockList, p);
      DistinctPush(blockList, p);
      blockBits[r * BLOCKS_X + c] := true;
      blockList := [p] + blockList;
    }

    lemma BitIndex(bits: seq<bool>, height: nat, width: nat, s: seq<Place>, p: Place)
      requires Shows(bits, height, width, s) && p.row < height && p.col < width
      ensures p.row * width + p.col < |bits| && (bits[p.row * width + p.col] <==> p in s)
    {
      NumberBelow(p, height, width);
      assert Bit(bits, width, p) <==> p in s;
    }

    /** A tile already listed is not listed again; one that finds no free node is dropped. */
    method AddTile(r: nat, c: nat)
      requires Valid() && r < TILES_Y && c < TILES_X
      modifies Footprint()
      ensures Valid() && blockList == old(blockList)
      ensures tileList == Added(old(tileList), Place(r, c), |old(tileList)| + |old(blockList)|)
    {
      BitIndex(tileBits[..], TILES_Y, TILES_X, tileList, Place(r, c));
      if !tileBits[r * TILES_X + c] {
        var ok := PushTile(r, c);
        if ok {
          NoteTile(r, c);
        }
      }
    }

    method AddBlock(r: nat, c: nat)
      requires Valid() && r < BLOCKS_Y && c < BLOCKS_X
      modifies Footprint()
      ensures Valid() && tileList == old(tileList)
      ensures blockList == Added(old(blockList), Place(r, c), |old(tileList)| + |old(blockList)|)
    {
      BitIndex(blockBits[..], BLOCKS_Y, BLOCKS_X, blockList, Place(r, c));
      if !blockBits[r * BLOCKS_X + c] {
        var ok := PushBlock(r, c);
        if ok {
          NoteBlock(r, c);
        }
      }
    }

    /** Returns the first tile's node to the free list. */
    method PopTile()
      requires Linked() && tiles != -1
      modifies this, next
      ensures Linked() && BlocksLinked() == old(BlocksLinked()) && old(tileNodes) != [] && tileNodes == old(tileNodes)[1..]
    {
      var node := tiles;
      OwnedPop(next[..], tiles, tileNodes, owner, Tile, free, Free);
      OwnedPush(next[..], free, freeNodes, owner, Free, node);
      OwnedElsewhere(next[..], blocks, blockNodes, owner, Block, node, free, Free);
      tiles := next[node];
      next[node] := free;
      free := node;
      used := used - 1;
      owner := owner[node := Free];
      freeNodes, tileNodes := [node] + freeNodes, tileNodes[1..];
    }

    method PopBlock()
      requires Linked() && blocks != -1
      modifies this, next
      ensures Linked() && TilesLinked() == old(TilesLinked()) && old(blockNodes) != [] && blockNodes == old(blockNodes)[1..]
    {
      var node := blocks;
      OwnedPop(next[..], blocks, blockNodes, owner, Block, free, Free);
      OwnedPush(next[..], free, freeNodes, owner, Free, node);
      OwnedElsewhere(next[..], tiles, tileNodes, owner, Tile, node, free, Free);
      blocks := next[node];
      next[node] := free;
      free := node;
      used := used - 1;
      owner := owner[node := Free];
      freeNodes, blockNodes := [node] + freeNodes, blockNodes[1..];
    }

    /** Follows the links of the tile list. */
    method WalkTiles() returns (places: seq<Place>)
      requires Valid()
      ensures places == tileList
    {
      places := [];
      var node := tiles;
      ghost var k := 0;
      while node != -1
        invariant 0 <= k <= |tileNodes| && places == tileList[..k]
        invariant node == if k < |tileNodes| then tileNodes[k] else -1
        decreases |tileNodes| - k
      {
        places := places + [Place(row[node], col[node])];
        node := next[node];
        k := k + 1;
      }
    }

    method WalkBlocks() returns (places: seq<Place>)
      requires Valid()
      ensures places == blockList
    {
      places := [];
      var node := blocks;
      ghost var k := 0;
      while node != -1
        invariant 0 <= k <= |blockNodes| && places == blockList[..k]
        invariant node == if k < |blockNodes| then blockNodes[k] else -1
        decreases |blockNodes| - k
      {
        places := places + [Place(row[node], col[node])];
        node := next[node];
        k := k + 1;
      }
    }

    method FreeAll()
      requires Linked()
      modifies this, next
      ensures Linked() && tileNodes == [] && blockNodes == []
    {
      while tiles != -1
        invariant Linked()
        decreases |tileNodes|
      {
        PopTile();
      }
      while blocks != -1
        invariant Linked() && tileNodes == []
        decreases |blockNodes|
      {
        PopBlock();
      }
    }

    method ClearMaps()
      requires tileBits != blockBits
      modifies tileBits, blockBits
      ensures forall i | 0 <= i < tileBits.Length :: !tileBits[i]
      ensures forall i | 0 <= i < blockBits.Length :: !blockBits[i]
    {
      forall i | 0 <= i < tileBits.Length {
        tileBits[i] := false;
      }
      forall i | 0 <= i < blockBits.Length {
        blockBits[i] := false;
      }
    }

    method Reset()
      requires Valid()
      modifies Footprint()
      ensures Valid() && tileList == [] && blockList == []
    {
      FreeAll();
      tileList, blockList := [], [];
      ClearMaps();
      ShowsNone(tileBits[..], TILES_Y, TILES_X);
      ShowsNone(blockBits[..], BLOCKS_Y, BLOCKS_X);
    }
  }

  lemma DistinctPush<T>(s: seq<T>, x: T)
    requires Distinct(s) && x !in s
    ensures Distinct([x] + s)
  {
  }

  // ---------------------------------------------------------------- when the pool suffices

  lemma {:induction false} Numbers(n: nat) returns (s: set<nat>)
    ensures |s| == n && forall k: nat :: k in s <==> k < n
  {
    if n == 0 {
      s := {};
    } else {
      var t := Numbers(n - 1);
      s := t + {n - 1};
    }
  }

  lemma {:induction false} DistinctSet(s: seq<nat>) returns (t: set<nat>)
    requires Distinct(s)
    ensures |t| == |s| && forall k :: k in t <==> k in s
  {
    if s == [] {
      t := {};
    } else {
      var u := DistinctSet(s[1..]);
      assert s[0] !in s[1..];
      t := u + {s[0]};
    }
  }

  lemma SubsetSize(a: set<nat>, b: set<nat>)
    requires a <= b
    ensures |a| <= |b|
  {
    if a == b {
    } else {
      assert |b| == |a| + |b - a| by {
        assert b == a + (b - a);
      }
    }
  }

  /** Distinct numbers below n that miss one of them are fewer than n. */
  lemma Pigeonhole(s: seq<nat>, n: nat, missing: nat)
    requires Distinct(s) && missing < n && missing !in s && forall k | k in s :: k < n
    ensures |s| < n
  {
    var t := DistinctSet(s);
    var all := Numbers(n);
    assert t <= all - {missing};
    SubsetSize(t, all - {missing});
  }

  /** The places of a grid that miss one of its places are fewer than the grid has. */
  lemma GridPigeonhole(s: seq<Place>, height: nat, width: nat, missing: Place)
    requires Distinct(s) && forall p | p in s :: p.row < height && p.col < width
    requires missing.row < height && missing.col < width && missing !in s
    ensures |s| < height * width
  {
    var numbers := seq(|s|, i requires 0 <= i < |s| => Number(s[i], width));
    forall i, j | 0 <= i < j < |numbers| ensures numbers[i] != numbers[j] {
      if numbers[i] == numbers[j] {
        NumberApart(s[i], s[j], width);
      }
    }
    forall k | k in numbers ensures k < height * width && k != Number(missing, width) {
      var i :| 0 <= i < |s| && numbers[i] == k;
      assert s[i] in s;
      NumberBelow(s[i], height, width);
      if k == Number(missing, width) {
        NumberApart(s[i], missing, width);
      }
    }
    NumberBelow(missing, height, width);
    Pigeonhole(numbers, height * width, Number(missing, width));
  }

  lemma GridBound(s: seq<Place>, height: nat, width: nat)
    requires Distinct(s) && forall p | p in s :: p.row < height && p.col < width
    ensures |s| <= height * width
  {
    if s != [] {
      var last := s[|s| - 1];
      assert forall p | p in s[..|s| - 1] :: p in s;
      assert last in s && last !in s[..|s| - 1];
      GridPigeonhole(s[..|s| - 1], height, width, last);
    }
  }

  /** A list shorter than its grid misses one of the grid's places. */
  lemma {:induction false} SomePlaceMissing(s: seq<Place>, height: nat, width: nat) returns (p: Place)
    requires |s| < height * width
    ensures p.row < height && p.col < width && p !in s
  {
    if forall q: Place | q.row < height && q.col < width :: q in s {
      var all := AllPlaces(height, width);
      var listed := Members(s);
      assert all <= listed;
      PlaceSubset(all, listed);
      assert false;
    }
    p :| p.row < height && p.col < width && p !in s;
  }

  lemma {:induction false} Members(s: seq<Place>) returns (t: set<Place>)
    ensures |t| <= |s| && forall p :: p in t <==> p in s
  {
    if s == [] {
      t := {};
    } else {
      var u := Members(s[1..]);
      t := u + {s[0]};
    }
  }

  lemma PlaceSubset(a: set<Place>, b: set<Place>)
    requires a <= b
    ensures |a| <= |b|
  {
    assert b == a + (b - a);
  }

  lemma {:induction false} RowPlaces(row: nat, width: nat) returns (t: set<Place>)
    ensures |t| == width && forall p: Place :: p in t <==> p.row == row && p.col < width
  {
    if width == 0 {
      t := {};
    } else {
      var u := RowPlaces(row, width - 1);
      t := u + {Place(row, width - 1)};
    }
  }

  lemma {:induction false} AllPlaces(height: nat, width: nat) returns (t: set<Place>)
    ensures |t| == height * width && forall p: Place :: p in t <==> p.row < height && p.col < width
  {
    if height == 0 {
      t := {};
    } else {
      var u := AllPlaces(height - 1, width);
      var v := RowPlaces(height - 1, width);
      assert u !! v;
      t := u + v;
      assert height * width == (height - 1) * width + width;
    }
  }
}
