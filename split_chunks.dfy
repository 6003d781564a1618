/** `split` in gdal2mbt.py: the raster is cut into square chunks of 2^n x 2^n
    base tiles, each given as sub-bounds for a separate `create` with the
    same num_levels n, so that the chunks can be built apart and merged. */
module SplitChunks {
  import opened MbTypes
  import opened Arith
  import opened TileGrid
  import opened TileOrder
  import opened PyramidBuild

  /** `chunk_size`: the pixel edge of a chunk, 2^n * 256. */
  function ChunkSize(n: nat): nat {
    Pow2(n) * TILE_SIZE
  }

  /** `_tile_coord(in_width, in_height, chunk_size)`: chunks per row and per
      column, the exact ceiling of the raster size over the chunk size. */
  function ChunkCounts(n: nat, width: nat, height: nat): (r: (nat, nat))
    ensures r == (CeilDiv(width, ChunkSize(n)), CeilDiv(height, ChunkSize(n)))
  {
    var c := TileCoord(width as real, height as real, ChunkSize(n));
    CeilOfQuotient(width, ChunkSize(n));
    CeilOfQuotient(height, ChunkSize(n));
    (c.0, c.1)
  }

  /** The sub-bounds `split` yields for chunk (cx, cy): `_tile_coord` of the
      chunk's lower-left and upper-right pixel corners, in 256-pixel tiles. */
  function ChunkBounds(n: nat, cx: int, cy: int): SubBounds {
    var s := ChunkSize(n);
    var lo := TileCoord((cx * s) as real, (cy * s) as real, TILE_SIZE);
    var hi := TileCoord(((cx + 1) * s) as real, ((cy + 1) * s) as real, TILE_SIZE);
    SubBounds(lo.0, lo.1, Fin(hi.0), Fin(hi.1))
  }

  /** The float ceiling in `_tile_coord` is exact on a whole number of tiles. */
  lemma WholeTiles(v: int)
    ensures Ceil((v * TILE_SIZE) as real / TILE_SIZE as real) == v
  {
    assert (v * TILE_SIZE) as real == v as real * TILE_SIZE as real;
  }

  /** Chunk (cx, cy) spans base tiles [cx * 2^n, (cx + 1) * 2^n) by
      [cy * 2^n, (cy + 1) * 2^n). */
  lemma ChunkBoundsExact(n: nat, cx: int, cy: int)
    ensures ChunkBounds(n, cx, cy)
      == SubBounds(cx * Pow2(n), cy * Pow2(n), Fin((cx + 1) * Pow2(n)), Fin((cy + 1) * Pow2(n)))
  {
    var f := Pow2(n);
    assert cx * ChunkSize(n) == (cx * f) * TILE_SIZE;
    assert cy * ChunkSize(n) == (cy * f) * TILE_SIZE;
    assert (cx + 1) * ChunkSize(n) == ((cx + 1) * f) * TILE_SIZE;
    assert (cy + 1) * ChunkSize(n) == ((cy + 1) * f) * TILE_SIZE;
    WholeTiles(cx * f);
    WholeTiles(cy * f);
    WholeTiles((cx + 1) * f);
    WholeTiles((cy + 1) * f);
  }

  function ChunkAt(n: nat, xchunks: nat, i: nat): SubBounds
    requires xchunks > 0
  {
    ChunkBounds(n, i % xchunks, i / xchunks)
  }

  /** `split(num_levels, source)` for a raster of width x height pixels: the
      chunks with cy outer and cx inner. */
  function Split(n: nat, width: nat, height: nat): seq<SubBounds> {
    var counts := ChunkCounts(n, width, height);
    var xc, yc := counts.0, counts.1;
    if xc == 0 then [] else seq(xc * yc, i requires 0 <= i < xc * yc => ChunkAt(n, xc, i))
  }

  /** There is one chunk per tile of level 0 of the pyramid built with
      num_levels n, and chunk number cy * xchunks + cx is chunk (cx, cy). */
  lemma SplitLayout(n: nat, width: nat, height: nat)
    ensures var p := Pyramid(n, width, height);
      var chunks := Split(n, width, height);
      && ChunkCounts(n, width, height) == (Cols(p, 0), Rows(p, 0))
      && |chunks| == Cols(p, 0) * Rows(p, 0)
      && (forall i :: 0 <= i < |chunks| ==>
            var cx, cy := i % Cols(p, 0), i / Cols(p, 0);
            0 <= cx < Cols(p, 0) && 0 <= cy < Rows(p, 0) && chunks[i] == ChunkBounds(n, cx, cy))
  {
    var p := Pyramid(n, width, height);
    assert TileSpan(p, 0) == ChunkSize(n);
    var xc, yc := Cols(p, 0), Rows(p, 0);
    var chunks := Split(n, width, height);
    forall i | 0 <= i < |chunks|
      ensures 0 <= i % xc < xc && 0 <= i / xc < yc
    {
      DivBelowCount(i, xc, yc);
    }
  }

  /** `split` cuts as many chunks per axis as level 0 has tiles. */
  lemma ChunkCountsGrid(n: nat, width: nat, height: nat)
    ensures var p := Pyramid(n, width, height);
      ChunkCounts(n, width, height) == (Cols(p, 0), Rows(p, 0))
  {
    assert TileSpan(Pyramid(n, width, height), 0) == ChunkSize(n);
  }

  lemma DivBelowCount(i: int, xc: int, yc: int)
    requires 0 <= i < xc * yc && xc > 0
    ensures 0 <= i % xc < xc && 0 <= i / xc < yc
  {
    if i / xc >= yc {
      MulLe(yc, i / xc, xc);
    }
  }

  /** Chunk (cx, cy) of the grid is chunk number cy * xchunks + cx. */
  lemma SplitIndex(n: nat, width: nat, height: nat, cx: int, cy: int)
    requires var p := Pyramid(n, width, height); 0 <= cx < Cols(p, 0) && 0 <= cy < Rows(p, 0)
    ensures var p := Pyramid(n, width, height);
      var i := cy * Cols(p, 0) + cx;
      0 <= i < |Split(n, width, height)| && Split(n, width, height)[i] == ChunkBounds(n, cx, cy)
  {
    var p := Pyramid(n, width, height);
    var xc, yc := Cols(p, 0), Rows(p, 0);
    SplitLayout(n, width, height);
    var i := cy * xc + cx;
    MulLt(cy, yc, xc);
    assert cy * xc + xc <= yc * xc;
    DivModUnique(i, xc, cy, cx);
  }

  /** Every chunk is aligned for the pyramid it is built into. */
  lemma ChunkAligned(n: nat, width: nat, height: nat, cx: int, cy: int)
    ensures Aligned(Pyramid(n, width, height), ChunkBounds(n, cx, cy))
  {
    ChunkBoundsExact(n, cx, cy);
    DivMulExact(cx, Pow2(n));
    DivMulExact(cy, Pow2(n));
  }

  /** Scaling by a positive factor keeps strict order, both ways. */
  lemma ScaleLt(u: int, v: int, f: int)
    requires f > 0
    ensures u * f < v * f <==> u < v
  {
    if u < v {
      MulLt(u, v, f);
    } else {
      MulLe(v, u, f);
    }
  }

  /** x lies in [cx * a, (cx + 1) * a) exactly when its tile span f, scaled up,
      lies within chunk cx of a * f. */
  lemma ScaledInterval(cx: int, x: int, a: nat, f: nat)
    requires a > 0 && f > 0
    ensures (cx * (a * f) < (x + 1) * f && (x + 1) * f <= (cx + 1) * (a * f)) <==> x / a == cx
  {
    var lo, hi := cx * a, (cx + 1) * a;
    assert cx * (a * f) == lo * f;
    assert (cx + 1) * (a * f) == hi * f;
    assert hi == lo + a;
    ScaleLt(lo, x + 1, f);
    ScaleLt(hi, x + 1, f);
    if lo <= x < hi {
      DivModUnique(x, a, cx, x - lo);
    }
    if x / a == cx {
      DivModUnique(x, a, cx, x % a);
    }
  }

  /** With the default sub-bounds, `tile_coords` enumerates the whole grid. */
  lemma DefaultCoordsAreGrid(p: Pyramid, k: TileKey)
    ensures k in TileCoords(p, DEFAULT_SUB) <==> InGrid(p, k)
  {
    TileCoordsMembership(p, DEFAULT_SUB, k);
  }

  /** The keys chunk (cx, cy) enumerates are exactly the tiles of the grid
      that lie over level-0 tile (cx, cy): the tile and its descendants. */
  lemma ChunkMembership(n: nat, width: nat, height: nat, cx: int, cy: int, k: TileKey)
    ensures var p := Pyramid(n, width, height);
      k in TileCoords(p, ChunkBounds(n, cx, cy)) <==>
        InGrid(p, k) && k.col / Pow2(k.level) == cx && k.row / Pow2(k.level) == cy
  {
    var p := Pyramid(n, width, height);
    var sub := ChunkBounds(n, cx, cy);
    ChunkBoundsExact(n, cx, cy);
    TileCoordsMembership(p, sub, k);
    if 0 <= k.level <= n {
      ChunkLevelMembership(p, cx, cy, k);
    }
  }

  /** One level of a chunk: the tiles over level-0 tile (cx, cy). */
  lemma ChunkLevelMembership(p: Pyramid, cx: int, cy: int, k: TileKey)
    requires 0 <= k.level <= p.z
    ensures var f := Pow2(p.z);
      var sub := SubBounds(cx * f, cy * f, Fin((cx + 1) * f), Fin((cy + 1) * f));
      InRect(LevelSub(p, sub, k.level), k.col, k.row) <==>
        InGrid(p, k) && k.col / Pow2(k.level) == cx && k.row / Pow2(k.level) == cy
  {
    var f := Pow2(p.z);
    var sub := SubBounds(cx * f, cy * f, Fin((cx + 1) * f), Fin((cy + 1) * f));
    var a, g := Pow2(k.level), Pow2(p.z - k.level);
    Pow2Add(k.level, p.z - k.level);
    LevelSubMembership(p, sub, k.level, k.col, k.row);
    ScaledInterval(cx, k.col, a, g);
    ScaledInterval(cy, k.row, a, g);
  }

  /** The level-0 tile over a tile of the grid is in the grid. */
  lemma AncestorInGrid(p: Pyramid, k: TileKey)
    requires InGrid(p, k)
    ensures 0 <= k.col / Pow2(k.level) < Cols(p, 0) && 0 <= k.row / Pow2(k.level) < Rows(p, 0)
  {
    var a, t := Pow2(k.level), TileSpan(p, k.level);
    Pow2Add(p.z - k.level, k.level);
    assert TileSpan(p, 0) == t * a;
    CeilDivTwice(p.width, t, a);
    CeilDivTwice(p.height, t, a);
    AncestorBelow(Cols(p, k.level), k.col, a);
    AncestorBelow(Rows(p, k.level), k.row, a);
  }

  /** Of c columns, column x lies in group x / a of ceil(c / a) groups. */
  lemma AncestorBelow(c: nat, x: int, a: nat)
    requires a > 0 && 0 <= x < c
    ensures 0 <= x / a < CeilDiv(c, a)
  {
    var q, g := x / a, CeilDiv(c, a);
    CeilDivBounds(c, a);
    DivModUnique(x, a, q, x % a);
    if q >= g {
      MulLe(g, q, a);
    }
  }

  /** The number `split` gives the chunk holding k: the chunk of k's
      level-0 ancestor, counted row by row from the bottom. */
  function ChunkIndex(p: Pyramid, k: TileKey): int
    requires k.level >= 0
  {
    (k.row / Pow2(k.level)) * Cols(p, 0) + k.col / Pow2(k.level)
  }

  /** Chunk number i enumerates k exactly when k is in the grid and its
      level-0 ancestor is tile i of level 0. */
  lemma SplitChunkOf(n: nat, width: nat, height: nat, i: int, k: TileKey)
    requires 0 <= i < |Split(n, width, height)|
    ensures var p := Pyramid(n, width, height);
      k in TileCoords(p, Split(n, width, height)[i]) <==> InGrid(p, k) && i == ChunkIndex(p, k)
  {
    var p := Pyramid(n, width, height);
    var xc := Cols(p, 0);
    ChunkCountsGrid(n, width, height);
    var cx, cy := i % xc, i / xc;
    assert Split(n, width, height)[i] == ChunkBounds(n, cx, cy);
    ChunkMembership(n, width, height, cx, cy, k);
    if InGrid(p, k) {
      AncestorInGrid(p, k);
      PairIndex(i, xc, k.col / Pow2(k.level), k.row / Pow2(k.level));
    }
  }

  /** Number i of a row-by-row count with xc per row is cell (i % xc, i / xc). */
  lemma PairIndex(i: int, xc: int, cx: int, cy: int)
    requires xc > 0 && 0 <= cx < xc
    ensures (i % xc == cx && i / xc == cy) <==> i == cy * xc + cx
  {
    if i == cy * xc + cx {
      DivModUnique(i, xc, cy, cx);
    }
  }

  /** The level-0 tile chunk number i is named after: it is in the grid
      and the chunk it lies in is chunk i. */
  function ChunkCorner(n: nat, width: nat, height: nat, i: nat): (k: TileKey)
    requires i < |Split(n, width, height)|
    ensures var p := Pyramid(n, width, height);
      InGrid(p, k) && k.level == 0 && ChunkIndex(p, k) == i
  {
    var p := Pyramid(n, width, height);
    var xc := Cols(p, 0);
    ChunkCountsGrid(n, width, height);
    DivBelowCount(i, xc, Rows(p, 0));
    CornerIndex(p, i);
    TileKey(0, i % xc, i / xc)
  }

  /** Tile i of level 0, counted row by row, is in chunk i. */
  lemma CornerIndex(p: Pyramid, i: nat)
    requires Cols(p, 0) > 0
    ensures ChunkIndex(p, TileKey(0, i % Cols(p, 0), i / Cols(p, 0))) == i
  {
    var xc := Cols(p, 0);
    assert Pow2(0) == 1;
    assert (i % xc) / 1 == i % xc && (i / xc) / 1 == i / xc;
    DivModUnique(i, xc, i / xc, i % xc);
  }

  /** The chunks partition the pyramid: a key is in the full grid exactly when
      some chunk enumerates it, and then exactly one chunk does. */
  lemma SplitPartition(n: nat, width: nat, height: nat, k: TileKey)
    ensures var p := Pyramid(n, width, height);
      var chunks := Split(n, width, height);
      k in TileCoords(p, DEFAULT_SUB) <==> exists i :: 0 <= i < |chunks| && k in TileCoords(p, chunks[i])
    ensures var p := Pyramid(n, width, height);
      var chunks := Split(n, width, height);
      forall i, j :: 0 <= i < |chunks| && 0 <= j < |chunks| ==>
        (k in TileCoords(p, chunks[i]) && k in TileCoords(p, chunks[j]) ==> i == j)
  {
    var p := Pyramid(n, width, height);
    var chunks := Split(n, width, height);
    DefaultCoordsAreGrid(p, k);
    forall i | 0 <= i < |chunks|
      ensures k in TileCoords(p, chunks[i]) <==> InGrid(p, k) && i == ChunkIndex(p, k)
    {
      SplitChunkOf(n, width, height, i, k);
    }
    if InGrid(p, k) {
      AncestorInGrid(p, k);
      SplitIndex(n, width, height, k.col / Pow2(k.level), k.row / Pow2(k.level));
      var i := ChunkIndex(p, k);
      assert k in TileCoords(p, chunks[i]);
    }
  }
}
