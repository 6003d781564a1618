/** `resume` and `create` in gdal2mbtiles.py, the earlier revision of the
    builder: there are no sub-bounds, so every level's whole grid is
    enumerated, finest level first, rows outer and columns inner. The store,
    the base-tile window, the quad children and the band interleave are the
    same code as in gdal2mbt.py and are modelled once, in MbStore,
    RasterWindow, QuadTiles and Bands. */
module LegacyBuild {
  import opened MbTypes
  import opened Arith
  import opened TileGrid
  import opened TileOrder
  import opened MbStore
  import opened PyramidBuild
  import opened SplitChunks
  import opened MetaDefaults

  /** `get_level_tiles`: `int(math.ceil(w / TILE_SIZE))` of the level size
      `in_width / 2^(Z-L)`, and the same for the height. */
  function LegacyLevelTiles(p: Pyramid, level: nat): (r: (int, int))
    requires level <= p.z
    ensures r == (Cols(p, level) as int, Rows(p, level) as int)
    ensures r.0 == CeilDiv(p.width, Pow2(p.z - level) * TILE_SIZE)
    ensures r.1 == CeilDiv(p.height, Pow2(p.z - level) * TILE_SIZE)
  {
    LevelTiles(p, level);
    var e := LevelExtent(p, level);
    (Ceil(e.0 / TILE_SIZE as real), Ceil(e.1 / TILE_SIZE as real))
  }

  /** One level of `tile_coords`: `for y in xrange(0, level_ytiles) for x in
      xrange(0, level_xtiles)`, the i-th key being column i mod cols of row
      i div cols. */
  function GridKeys(level: int, cols: nat, rows: nat): (r: seq<TileKey>)
    ensures |r| == cols * rows
  {
    seq(cols * rows, i requires 0 <= i < cols * rows => TileKey(level, i % cols, i / cols))
  }

  /** The first n levels of the enumeration: Z, Z-1, ..., Z-n+1. */
  function LegacyLevels(p: Pyramid, n: nat): seq<TileKey>
    requires n <= p.z + 1
  {
    if n == 0 then []
    else
      var level := p.z - (n - 1);
      var (c, r) := LegacyLevelTiles(p, level);
      LegacyLevels(p, n - 1) + GridKeys(level, c, r)
  }

  /** `tile_coords` over `levels = range(num_levels, -1, -1)`. */
  function LegacyCoords(p: Pyramid): seq<TileKey> {
    LegacyLevels(p, p.z + 1)
  }

  /** Rows bottom .. top - 1 of a grid `cols` wide, row by row, are the keys
      numbered row-major from the bottom row. */
  lemma {:induction false} GridRows(level: int, cols: nat, bottom: int, top: int)
    requires bottom <= top
    decreases top - bottom
    ensures var keys := RectKeys(level, Rect(0, bottom, cols, top));
      && |keys| == cols * (top - bottom)
      && forall i :: 0 <= i < |keys| ==> keys[i] == TileKey(level, i % cols, bottom + i / cols)
  {
    if bottom < top {
      var keys := RectKeys(level, Rect(0, bottom, cols, top));
      var row := RowKeys(level, bottom, 0, cols);
      var rest := RectKeys(level, Rect(0, bottom + 1, cols, top));
      assert keys == row + rest;
      GridRows(level, cols, bottom + 1, top);
      assert cols * (top - bottom) == cols * (top - (bottom + 1)) + cols;
      forall i | 0 <= i < |keys|
        ensures keys[i] == TileKey(level, i % cols, bottom + i / cols)
      {
        if i < cols {
          DivModUnique(i, cols, 0, i);
        } else {
          var j := i - cols;
          assert keys[i] == rest[j];
          DivModUnique(i, cols, j / cols + 1, j % cols);
        }
      }
    }
  }

  /** A level of the legacy enumeration is the whole-grid level of the
      current one. */
  lemma GridLevel(p: Pyramid, level: nat)
    requires level <= p.z
    ensures GridKeys(level, Cols(p, level), Rows(p, level)) == LevelKeys(p, DEFAULT_SUB, level)
  {
    var c, r := Cols(p, level), Rows(p, level);
    assert LevelKeys(p, DEFAULT_SUB, level) == RectKeys(level, Rect(0, 0, c, r));
    GridRows(level, c, 0, r);
  }

  lemma {:induction false} LegacyLevelsDefault(p: Pyramid, n: nat)
    requires n <= p.z + 1
    ensures LegacyLevels(p, n) == LevelsDown(p, DEFAULT_SUB, n)
  {
    if n > 0 {
      var level := p.z - (n - 1);
      LegacyLevelsDefault(p, n - 1);
      GridLevel(p, level);
      assert LegacyLevels(p, n) == LegacyLevels(p, n - 1) + GridKeys(level, Cols(p, level), Rows(p, level));
    }
  }

  /** The earlier enumeration is the current one with the default sub-bounds
      `(0, 0, inf, inf)`. */
  lemma LegacyCoordsDefault(p: Pyramid)
    ensures LegacyCoords(p) == TileCoords(p, DEFAULT_SUB)
  {
    LegacyLevelsDefault(p, p.z + 1);
  }

  /** The enumeration visits every tile of every level's grid and nothing else. */
  lemma LegacyCoordsGrid(p: Pyramid, k: TileKey)
    ensures k in LegacyCoords(p) <==> InGrid(p, k)
  {
    LegacyCoordsDefault(p);
    DefaultCoordsAreGrid(p, k);
  }

  /** `get_tile_nr` numbers the enumeration 1, 2, ..., total_tiles in its
      order: a bijection onto 1..total_tiles that increases along it. */
  lemma LegacyNumbering(p: Pyramid)
    ensures |LegacyCoords(p)| == TotalTiles(p)
    ensures forall i :: 0 <= i < TotalTiles(p) ==> KeyNr(p, LegacyCoords(p)[i]) == i + 1
  {
    LegacyCoordsDefault(p);
    DefaultNumbering(p);
  }

  /** `resume(num_levels, mbtiles, source)` of gdal2mbtiles.py on a store with
      metadata `meta` and tile table `tiles`: `format` is read, then the
      extent rows; a negative num_levels fails at `levels[0]`; the first
      missing key of the whole-grid enumeration and all keys after it are
      created, and a store already complete raises StopIteration. */
  function LegacyResumeSpec(numLevels: int, width: nat, height: nat, source: Option<Dataset>,
                            meta: map<string, string>, tiles: map<TileKey, Blob>): Built
  {
    if "format" !in meta then Built(tiles, Fail(MetadataNotFound("format")))
    else if "srs" !in meta then Built(tiles, Fail(MetadataNotFound("srs")))
    else if "resolution" !in meta then Built(tiles, Fail(MetadataNotFound("resolution")))
    else if "bounds" !in meta then Built(tiles, Fail(MetadataNotFound("bounds")))
    else if numLevels < 0 then Built(tiles, Fail(NoLevels))
    else
      var job := Job(Pyramid(numLevels, width, height), meta["format"], source);
      var keys := LegacyCoords(job.p);
      var n := PresentPrefix(tiles, keys);
      if n == |keys| then Built(tiles, Fail(Exhausted)) else Run(job, tiles, keys[n..])
  }

  /** The earlier `resume` does what the current one does with the default
      sub-bounds. */
  lemma LegacyResumeAgrees(numLevels: int, width: nat, height: nat, source: Option<Dataset>,
                           meta: map<string, string>, tiles: map<TileKey, Blob>)
    ensures LegacyResumeSpec(numLevels, width, height, source, meta, tiles) ==
      ResumeSpec(numLevels, width, height, DEFAULT_SUB, source, meta, tiles)
  {
    if numLevels >= 0 {
      LegacyCoordsDefault(Pyramid(numLevels, width, height));
    }
  }

  /** A run of the earlier `resume` that succeeds leaves every tile of the
      grid in the store, and nothing outside it is added. */
  lemma LegacyResumeCompletes(numLevels: int, width: nat, height: nat, source: Option<Dataset>,
                              meta: map<string, string>, tiles: map<TileKey, Blob>, k: TileKey)
    ensures var r := LegacyResumeSpec(numLevels, width, height, source, meta, tiles);
      r.outcome.Pass? ==>
        numLevels >= 0 && (k in r.tiles <==> k in tiles || InGrid(Pyramid(numLevels, width, height), k))
  {
    var r := LegacyResumeSpec(numLevels, width, height, source, meta, tiles);
    if r.outcome.Pass? {
      var p := Pyramid(numLevels, width, height);
      var job := Job(p, meta["format"], source);
      var keys := LegacyCoords(p);
      var n := PresentPrefix(tiles, keys);
      assert r == Run(job, tiles, keys[n..]);
      ResumedKeys(job, tiles, keys, n, k);
      LegacyCoordsGrid(p, k);
    }
  }

  /** The earlier `resume` on an open store. */
  method LegacyResume(db: MBTiles, numLevels: int, width: nat, height: nat, source: Option<Dataset>)
    returns (outcome: Outcome)
    modifies db
    ensures Built(db.tiles, outcome) == LegacyResumeSpec(numLevels, width, height, source, old(db.metadata), old(db.tiles))
    ensures db.metadata == old(db.metadata)
    ensures (db.tiles == old(db.tiles) && db.savedTiles == old(db.savedTiles) && db.savedMetadata == old(db.savedMetadata))
      || (db.savedTiles == db.tiles && db.savedMetadata == db.metadata)
  {
    LegacyResumeAgrees(numLevels, width, height, source, db.metadata, db.tiles);
    outcome := Resume(db, numLevels, width, height, DEFAULT_SUB, source);
  }

  /** `create(num_levels, mbtiles, source, metadata)` of gdal2mbtiles.py: the
      caller's metadata completed in place, a new store holding it, then the
      earlier `resume` with the raster. The metadata and every created tile
      end committed. */
  method LegacyCreate(numLevels: int, width: nat, height: nat, ds: Dataset, metadata: MetadataDict,
                      bounds: string, srs: string, resolution: string)
    returns (db: MBTiles, outcome: Outcome)
    modifies metadata
    ensures fresh(db)
    ensures metadata.entries == WithDefaults(old(metadata.entries), DefaultMetadata(bounds, srs, resolution))
    ensures db.metadata == metadata.entries
    ensures Built(db.tiles, outcome) == LegacyResumeSpec(numLevels, width, height, Some(ds), db.metadata, map[])
    ensures db.savedMetadata == db.metadata && db.savedTiles == db.tiles
  {
    var meta := GetMetadata(metadata, bounds, srs, resolution);
    db := new MBTiles(meta.entries);
    outcome := LegacyResume(db, numLevels, width, height, Some(ds));
  }
}
