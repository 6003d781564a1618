/** `set_levels(num_levels, mbtiles)` in gdal2mbt.py: the pyramid is given
    num_levels + 1 levels by renumbering the zoom of every tile so that the
    finest level becomes num_levels. Levels are added or dropped at the
    COARSE end: new levels 0 .. diff - 1 are derived by `resume`, dropped
    levels are the coarsest ones. */
module LevelEdit {
  import opened MbTypes
  import opened TileGrid
  import opened TileOrder
  import opened LevelMaps
  import opened MbStore
  import opened QuadTiles
  import opened PyramidBuild

  /** The intended effect of `set_levels` on the tile table. An empty table
      has no MAX(zoom_level) and `int(None)` fails; otherwise the difference
      between num_levels and the highest zoom picks the branch. */
  ghost function SetLevelsSpec(numLevels: int, width: nat, height: nat, meta: map<string, string>,
                               t: map<TileKey, Blob>): Built
  {
    if t == map[] then Built(t, Fail(NoTiles))
    else
      var diff := numLevels - MaxLevel(t);
      if diff > 0 then AddLevels(numLevels, width, height, meta, t, diff)
      else if diff < 0 then Built(DropLevels(t, -diff), Pass)
      else Built(t, Pass)
  }

  /** diff > 0: every zoom moves up by diff, then `resume(num_levels, db)`
      without a raster fills what is missing. */
  function AddLevels(numLevels: int, width: nat, height: nat, meta: map<string, string>,
                     t: map<TileKey, Blob>, d: int): Built
  {
    ResumeSpec(numLevels, width, height, DEFAULT_SUB, None, meta, ShiftLevels(t, d))
  }

  /** diff = -d < 0: the rows below zoom d are deleted and the rest move down by d. */
  function DropLevels(t: map<TileKey, Blob>, d: int): map<TileKey, Blob> {
    ShiftLevels(DropBelow(t, d), -d)
  }

  /** `set_levels` on an open store, as intended. Each branch commits after
      its statements, and `resume` commits every tile it creates. The drop
      branch's UPDATE is taken to move every row at once (`ShiftZoom`);
      SQLite moving rows one at a time rejects it on a table stored finest
      first (`DropUpdateExample`). */
  method SetLevels(db: MBTiles, numLevels: int, width: nat, height: nat) returns (outcome: Outcome)
    modifies db
    ensures Built(db.tiles, outcome) == SetLevelsSpec(numLevels, width, height, old(db.metadata), old(db.tiles))
    ensures db.metadata == old(db.metadata)
    ensures (db.tiles == old(db.tiles) && db.savedTiles == old(db.savedTiles) && db.savedMetadata == old(db.savedMetadata))
         || (db.savedTiles == db.tiles && db.savedMetadata == db.metadata)
  {
    ghost var t, meta := db.tiles, db.metadata;
    var top := db.MaxZoom();
    if top.None? {
      return Fail(NoTiles);
    }
    var diff := numLevels - top.value;
    if diff > 0 {
      SpecAdd(numLevels, width, height, meta, t, diff);
      outcome := GrowZoom(db, numLevels, width, height, diff);
    } else if diff < 0 {
      DropZoom(db, -diff, diff);
      SpecDropBy(numLevels, width, height, meta, t, -diff, diff);
      outcome := Pass;
    } else {
      SpecSame(numLevels, width, height, meta, t);
      outcome := Pass;
    }
  }

  /** The adding branch, taken when num_levels is above the highest zoom. */
  lemma SpecAdd(numLevels: int, width: nat, height: nat, meta: map<string, string>, t: map<TileKey, Blob>, diff: int)
    requires t != map[] && diff == numLevels - MaxLevel(t) > 0
    ensures SetLevelsSpec(numLevels, width, height, meta, t) == AddLevels(numLevels, width, height, meta, t, diff)
  {
  }

  /** The dropping branch, taken when num_levels is below the highest zoom, is
      its two statements as intended: DELETE below zoom n = -diff, then every
      zoom moved by diff at once. */
  lemma SpecDropBy(numLevels: int, width: nat, height: nat, meta: map<string, string>, t: map<TileKey, Blob>,
                   n: int, diff: int)
    requires t != map[] && n == MaxLevel(t) - numLevels > 0 && diff == -n
    ensures SetLevelsSpec(numLevels, width, height, meta, t) == Built(ShiftLevels(DropBelow(t, n), diff), Pass)
  {
    SetLevelsDrop(numLevels, width, height, meta, t);
    DropStatements(t, n, diff);
  }

  /** At the highest zoom already, nothing changes. */
  lemma SpecSame(numLevels: int, width: nat, height: nat, meta: map<string, string>, t: map<TileKey, Blob>)
    requires t != map[] && numLevels == MaxLevel(t)
    ensures SetLevelsSpec(numLevels, width, height, meta, t) == Built(t, Pass)
  {
  }

  /** The two statements of the dropping branch as intended, DELETE below
      zoom n and then every zoom moved by diff = -n at once, are
      `DropLevels(t, n)`. */
  lemma DropStatements(t: map<TileKey, Blob>, n: int, diff: int)
    requires diff == -n
    ensures ShiftLevels(DropBelow(t, n), diff) == DropLevels(t, n)
  {
  }

  /** The statements of the adding branch: every zoom moved up by diff, a
      commit, then `resume(num_levels, db)` without a raster. */
  method GrowZoom(db: MBTiles, numLevels: int, width: nat, height: nat, diff: int) returns (outcome: Outcome)
    modifies db
    ensures Built(db.tiles, outcome) == AddLevels(numLevels, width, height, old(db.metadata), old(db.tiles), diff)
    ensures db.metadata == old(db.metadata)
    ensures db.savedTiles == db.tiles && db.savedMetadata == db.metadata
  {
    db.ShiftZoom(diff);
    db.Commit();
    outcome := Resume(db, numLevels, width, height, DEFAULT_SUB, None);
  }

  /** The statements of the dropping branch as intended: the rows below zoom
      n deleted, every zoom moved by diff at once, then a commit. */
  method DropZoom(db: MBTiles, n: int, diff: int)
    modifies db
    ensures db.tiles == ShiftLevels(DropBelow(old(db.tiles), n), diff)
    ensures db.metadata == old(db.metadata) && db.savedTiles == db.tiles && db.savedMetadata == db.metadata
  {
    db.DeleteBelow(n);
    db.ShiftZoom(diff);
    db.Commit();
  }

  /** Dropping d levels keeps exactly the tiles at least d levels above the
      coarsest zoom, each moved down by d with its blob. */
  lemma DropLevelsRows(t: map<TileKey, Blob>, d: int)
    requires d > 0
    ensures forall k :: k in DropLevels(t, d) <==> k.level >= 0 && Shift(k, d) in t
    ensures forall k :: k in DropLevels(t, d) ==> DropLevels(t, d)[k] == t[Shift(k, d)]
  {
    var kept := DropBelow(t, d);
    var r := DropLevels(t, d);
    forall k
      ensures k in r <==> k.level >= 0 && Shift(k, d) in t
      ensures k in r ==> r[k] == t[Shift(k, d)]
    {
      ShiftedKey(kept, -d, k);
      assert Shift(k, --d) == Shift(k, d);
    }
  }

  /** Dropping d levels from a table whose highest zoom is m leaves m - d
      as the highest zoom when that is not negative. */
  lemma DropLevelsTop(t: map<TileKey, Blob>, d: int, m: int)
    requires t != map[] && m == MaxLevel(t) && 0 < d <= m
    ensures DropLevels(t, d) != map[] && MaxLevel(DropLevels(t, d)) == m - d
  {
    var top :| top in t && top.level == m;
    var k := DropKeepsTop(t, d, top);
    DropBound(t, d, m);
    TopLevel(DropLevels(t, d), m - d, k);
  }

  /** A tile at zoom d or above survives the drop, d levels lower. */
  lemma DropKeepsTop(t: map<TileKey, Blob>, d: int, top: TileKey) returns (k: TileKey)
    requires top in t && top.level >= d
    ensures k in DropLevels(t, d) && k.level == top.level - d
  {
    k := Shift(top, -d);
    ShiftedKey(DropBelow(t, d), -d, k);
  }

  /** No tile survives the drop above zoom m - d when m bounds the table. */
  lemma DropBound(t: map<TileKey, Blob>, d: int, m: int)
    requires forall j :: j in t ==> j.level <= m
    ensures forall j :: j in DropLevels(t, d) ==> j.level <= m - d
  {
    forall j | j in DropLevels(t, d)
      ensures j.level <= m - d
    {
      ShiftedKey(DropBelow(t, d), -d, j);
    }
  }

  /** Dropping d levels from a table whose highest zoom is n + d keeps
      exactly the tiles at zoom d or above, each d levels lower, and a
      non-negative n becomes the highest zoom. */
  lemma DroppedTable(t: map<TileKey, Blob>, d: int, n: int)
    requires t != map[] && d > 0 && MaxLevel(t) == n + d
    ensures forall k :: k in DropLevels(t, d) <==> k.level >= 0 && Shift(k, d) in t
    ensures n >= 0 ==> DropLevels(t, d) != map[] && MaxLevel(DropLevels(t, d)) == n
  {
    DropLevelsRows(t, d);
    if n >= 0 {
      DropLevelsTop(t, d, n + d);
    }
  }

  /** `set_levels` dropping levels succeeds, and the table becomes the one
      with the MaxLevel(t) - num_levels coarsest levels dropped. */
  lemma SetLevelsDrop(numLevels: int, width: nat, height: nat, meta: map<string, string>, t: map<TileKey, Blob>)
    requires t != map[] && numLevels < MaxLevel(t)
    ensures SetLevelsSpec(numLevels, width, height, meta, t) == Built(DropLevels(t, MaxLevel(t) - numLevels), Pass)
  {
    var diff := numLevels - MaxLevel(t);
    assert -diff == MaxLevel(t) - numLevels;
  }

  /** A key at level m, with no key above it, fixes the highest zoom. */
  lemma TopLevel(t: map<TileKey, Blob>, m: int, k: TileKey)
    requires k in t && k.level == m && forall j :: j in t ==> j.level <= m
    ensures t != map[] && MaxLevel(t) == m
  {
    var top :| top in t && top.level == MaxLevel(t);
  }

  /** Every tile of the pyramid's grid is stored. */
  ghost predicate Complete(p: Pyramid, t: map<TileKey, Blob>) {
    forall k :: InGrid(p, k) ==> k in t
  }

  /** A pyramid renumbered d levels up has the same grid, d levels higher. */
  lemma RaisedGrid(p: Pyramid, d: int, k: TileKey)
    requires 0 <= d <= k.level
    ensures InGrid(Pyramid(p.z + d, p.width, p.height), k) <==> InGrid(p, Shift(k, -d))
  {
    var q := Pyramid(p.z + d, p.width, p.height);
    if 0 <= k.level <= q.z {
      assert TileSpan(q, k.level) == TileSpan(p, k.level - d);
    }
  }

  /** The rows of `after` that `before` does not have. */
  function NewRows(after: map<TileKey, Blob>, before: map<TileKey, Blob>): map<TileKey, Blob> {
    map k | k in after && k !in before :: after[k]
  }

  /** Adding d levels to a complete pyramid whose highest zoom is m: the
      run of `resume` after the shift meets only keys below zoom d, so
      whatever it adds lies below the shifted tiles, and the highest zoom
      becomes m + d. */
  lemma GrowAddsBelow(width: nat, height: nat, meta: map<string, string>, t: map<TileKey, Blob>, m: int, d: int)
    requires t != map[] && m == MaxLevel(t) && LevelsAtLeast(t, 0) && d > 0
    requires Complete(Pyramid(m, width, height), t)
    ensures var s := ShiftLevels(t, d);
      var r := AddLevels(m + d, width, height, meta, t, d);
      r.outcome.Pass? ==>
        && r.tiles == s + NewRows(r.tiles, s)
        && LevelsBelow(NewRows(r.tiles, s), d)
        && r.tiles != map[] && MaxLevel(r.tiles) == m + d
  {
    var s := ShiftLevels(t, d);
    var r := AddLevels(m + d, width, height, meta, t, d);
    if r.outcome.Pass? {
      GrowRows(width, height, meta, t, m, d);
      var extra := NewRows(r.tiles, s);
      forall k | k in extra
        ensures k.level < d
      {
        MissingBelow(width, height, t, m, d, k);
      }
      ShiftMaxLevel(t, d);
      HigherRows(s, extra, m + d, d);
    }
  }

  /** What a successful `resume` adds to a table is new rows of the grid,
      kept beside the rows it had. */
  lemma ResumeRows(numLevels: nat, width: nat, height: nat, meta: map<string, string>, s: map<TileKey, Blob>)
    ensures var r := ResumeSpec(numLevels, width, height, DEFAULT_SUB, None, meta, s);
      r.outcome.Pass? ==>
        && r.tiles == s + NewRows(r.tiles, s)
        && forall k :: k in NewRows(r.tiles, s) ==> InGrid(Pyramid(numLevels, width, height), k) && k !in s
  {
    var r := ResumeSpec(numLevels, width, height, DEFAULT_SUB, None, meta, s);
    if r.outcome.Pass? {
      var job := ResumeJob(numLevels, width, height, None, meta);
      var keys := TileCoords(job.p, DEFAULT_SUB);
      var n := PresentPrefix(s, keys);
      assert r == Run(job, s, keys[n..]);
      RunAdds(job, s, keys, n);
      forall k | k in NewRows(r.tiles, s)
        ensures InGrid(job.p, k)
      {
        TileCoordsInGrid(job.p, DEFAULT_SUB, k);
      }
    }
  }

  /** A passing run from the first missing key keeps the table's rows and
      adds rows for enumerated keys only. */
  lemma RunAdds(job: Job, s: map<TileKey, Blob>, keys: seq<TileKey>, n: nat)
    requires n == PresentPrefix(s, keys)
    ensures var r := Run(job, s, keys[n..]);
      r.outcome.Pass? ==>
        && r.tiles == s + NewRows(r.tiles, s)
        && forall k :: k in NewRows(r.tiles, s) ==> k in keys && k !in s
  {
    var r := Run(job, s, keys[n..]);
    RunRows(job, s, keys[n..]);
    if r.outcome.Pass? {
      assert r.tiles == s + NewRows(r.tiles, s);
      forall k | k in NewRows(r.tiles, s)
        ensures k in keys
      {
        MissingFromPrefix(s, keys, n, k);
      }
    }
  }

  /** The same for `resume` after the shift by d. */
  lemma GrowRows(width: nat, height: nat, meta: map<string, string>, t: map<TileKey, Blob>, m: nat, d: nat)
    ensures var s := ShiftLevels(t, d);
      var r := AddLevels(m + d, width, height, meta, t, d);
      r.outcome.Pass? ==>
        && r.tiles == s + NewRows(r.tiles, s)
        && forall k :: k in NewRows(r.tiles, s) ==> InGrid(Pyramid(m + d, width, height), k) && k !in s
  {
    ResumeRows(m + d, width, height, meta, ShiftLevels(t, d));
  }

  /** A grid key of the taller pyramid that the shifted complete pyramid
      lacks lies below zoom d. */
  lemma MissingBelow(width: nat, height: nat, t: map<TileKey, Blob>, m: int, d: int, k: TileKey)
    requires m >= 0 && d > 0 && Complete(Pyramid(m, width, height), t)
    requires InGrid(Pyramid(m + d, width, height), k) && k !in ShiftLevels(t, d)
    ensures k.level < d
  {
    if k.level >= d {
      RaisedGrid(Pyramid(m, width, height), d, k);
      ShiftedKey(t, d, k);
    }
  }

  /** Rows below zoom d added beside a table whose highest zoom is top >= d
      leave the highest zoom at top. */
  lemma HigherRows(s: map<TileKey, Blob>, extra: map<TileKey, Blob>, top: int, d: int)
    requires s != map[] && MaxLevel(s) == top && d <= top
    requires forall k :: k in extra ==> k.level < d
    ensures s + extra != map[] && MaxLevel(s + extra) == top
  {
    var k :| k in s && k.level == top;
    TopLevel(s + extra, top, k);
  }

  /** Adding levels to a complete pyramid and then setting the old number of
      levels again restores the table exactly. */
  lemma GrowThenShrink(numLevels: int, width: nat, height: nat, meta: map<string, string>, t: map<TileKey, Blob>)
    requires t != map[] && LevelsAtLeast(t, 0) && numLevels > MaxLevel(t)
    requires Complete(Pyramid(MaxLevel(t), width, height), t)
    ensures var r := SetLevelsSpec(numLevels, width, height, meta, t);
      r.outcome.Pass? ==> SetLevelsSpec(MaxLevel(t), width, height, meta, r.tiles) == Built(t, Pass)
  {
    var m := MaxLevel(t);
    var d := numLevels - m;
    var r := AddLevels(numLevels, width, height, meta, t, d);
    SpecAdd(numLevels, width, height, meta, t, d);
    GrowAddsBelow(width, height, meta, t, m, d);
    if r.outcome.Pass? {
      ShrinkBack(width, height, meta, t, r.tiles, m, d);
    }
  }

  /** A table made of the pyramid shifted up by d and rows below zoom d goes
      back to the pyramid when its d coarsest levels are dropped. */
  lemma ShrinkBack(width: nat, height: nat, meta: map<string, string>, t: map<TileKey, Blob>,
                   u: map<TileKey, Blob>, m: int, d: int)
    requires LevelsAtLeast(t, 0) && d > 0
    requires u == ShiftLevels(t, d) + NewRows(u, ShiftLevels(t, d)) && LevelsBelow(NewRows(u, ShiftLevels(t, d)), d)
    requires u != map[] && MaxLevel(u) == m + d
    ensures SetLevelsSpec(m, width, height, meta, u) == Built(t, Pass)
  {
    SetLevelsDrop(m, width, height, meta, u);
    AddThenDropLevels(t, NewRows(u, ShiftLevels(t, d)), d);
  }

  /** A run over keys that are all missing and all above the base level
      cannot fail: each derived tile is a thumbnail of what is stored. */
  lemma {:induction false} RunDerived(job: Job, tiles: map<TileKey, Blob>, keys: seq<TileKey>)
    requires forall i, j :: 0 <= i < j < |keys| ==> keys[i] != keys[j]
    requires forall k :: k in keys ==> k !in tiles && k.level != job.p.z
    decreases |keys|
    ensures Run(job, tiles, keys).outcome == Pass
  {
    if keys != [] {
      var next := tiles[keys[0] := Encoded(job.format, Thumbnail(QuadParts(tiles, keys[0].level, keys[0].col, keys[0].row)))];
      assert Step(job, tiles, keys[0]) == Ok(next);
      forall k | k in keys[1..]
        ensures k !in next && k.level != job.p.z
      {
        var i :| 1 <= i < |keys| && keys[i] == k;
      }
      RunDerived(job, next, keys[1..]);
    }
  }

  /** Adding levels to a complete, non-empty pyramid with its metadata in
      place succeeds without a raster. */
  lemma GrowPasses(numLevels: int, width: nat, height: nat, meta: map<string, string>, t: map<TileKey, Blob>)
    requires t != map[] && LevelsAtLeast(t, 0) && numLevels > MaxLevel(t)
    requires Complete(Pyramid(MaxLevel(t), width, height), t)
    requires MetadataReady(meta) && width > 0 && height > 0
    ensures SetLevelsSpec(numLevels, width, height, meta, t).outcome == Pass
  {
    var m := MaxLevel(t);
    var d := numLevels - m;
    SpecAdd(numLevels, width, height, meta, t, d);
    AddLevelsPasses(width, height, meta, t, m, d);
  }

  lemma AddLevelsPasses(width: nat, height: nat, meta: map<string, string>, t: map<TileKey, Blob>, m: int, d: int)
    requires t != map[] && m == MaxLevel(t) && LevelsAtLeast(t, 0) && d > 0
    requires Complete(Pyramid(m, width, height), t)
    requires MetadataReady(meta) && width > 0 && height > 0
    ensures AddLevels(m + d, width, height, meta, t, d).outcome == Pass
  {
    var q := Pyramid(m + d, width, height);
    var s := ShiftLevels(t, d);
    var job := ResumeJob(m + d, width, height, None, meta);
    var keys := TileCoords(q, DEFAULT_SUB);
    var n := PresentPrefix(s, keys);
    OriginMissing(width, height, t, m, d);
    var rest := keys[n..];
    TileCoordsDistinct(q, DEFAULT_SUB);
    RestMissing(width, height, t, m, d, n);
    RunDerived(job, s, rest);
    assert AddLevels(m + d, width, height, meta, t, d) == Run(job, s, rest);
  }

  /** Every key the run after the shift visits is missing and below the
      finest zoom. */
  lemma RestMissing(width: nat, height: nat, t: map<TileKey, Blob>, m: int, d: int, n: nat)
    requires t != map[] && m == MaxLevel(t) && LevelsAtLeast(t, 0) && d > 0
    requires Complete(Pyramid(m, width, height), t)
    requires var keys := TileCoords(Pyramid(m + d, width, height), DEFAULT_SUB);
      n == PresentPrefix(ShiftLevels(t, d), keys)
    ensures var keys := TileCoords(Pyramid(m + d, width, height), DEFAULT_SUB);
      forall k :: k in keys[n..] ==> k !in ShiftLevels(t, d) && k.level != m + d
  {
    var keys := TileCoords(Pyramid(m + d, width, height), DEFAULT_SUB);
    var rest := keys[n..];
    forall k | k in rest
      ensures k !in ShiftLevels(t, d) && k.level != m + d
    {
      var i := SuffixIndex(keys, n, k);
      GrowKeyMissing(width, height, t, m, d, n, i);
    }
  }

  /** Where a key of the suffix from n sits in the whole sequence. */
  lemma SuffixIndex(keys: seq<TileKey>, n: nat, k: TileKey) returns (i: nat)
    requires n <= |keys| && k in keys[n..]
    ensures n <= i < |keys| && keys[i] == k
  {
    var j :| 0 <= j < |keys[n..]| && keys[n..][j] == k;
    i := n + j;
  }

  /** Tile (0, 0, 0) is in the grid of a non-empty raster and, lying below
      zoom d, is missing after the shift: so some enumerated key is missing. */
  lemma OriginMissing(width: nat, height: nat, t: map<TileKey, Blob>, m: int, d: int)
    requires LevelsAtLeast(t, 0) && d > 0 && m >= 0 && width > 0 && height > 0
    ensures var keys := TileCoords(Pyramid(m + d, width, height), DEFAULT_SUB);
      PresentPrefix(ShiftLevels(t, d), keys) < |keys|
  {
    var q := Pyramid(m + d, width, height);
    var s := ShiftLevels(t, d);
    var keys := TileCoords(q, DEFAULT_SUB);
    var origin := TileKey(0, 0, 0);
    CeilDivBounds(width, TileSpan(q, 0));
    CeilDivBounds(height, TileSpan(q, 0));
    assert InGrid(q, origin);
    TileCoordsMembership(q, DEFAULT_SUB, origin);
    ShiftedKey(t, d, origin);
    var i :| 0 <= i < |keys| && keys[i] == origin;
    assert keys[i] !in s;
  }

  /** After the shift, the keys `resume` creates are the missing ones: the
      first missing key lies below zoom d, so every key enumerated from it
      on lies below zoom d too and is missing. */
  lemma GrowKeyMissing(width: nat, height: nat, t: map<TileKey, Blob>, m: int, d: int, n: nat, i: nat)
    requires t != map[] && m == MaxLevel(t) && LevelsAtLeast(t, 0) && d > 0
    requires Complete(Pyramid(m, width, height), t)
    requires var keys := TileCoords(Pyramid(m + d, width, height), DEFAULT_SUB);
      n == PresentPrefix(ShiftLevels(t, d), keys) && n <= i < |keys|
    ensures var keys := TileCoords(Pyramid(m + d, width, height), DEFAULT_SUB);
      keys[i] !in ShiftLevels(t, d) && keys[i].level < d
  {
    var q := Pyramid(m + d, width, height);
    var s := ShiftLevels(t, d);
    var keys := TileCoords(q, DEFAULT_SUB);
    var top :| top in t && top.level == m;
    TileCoordsInGrid(q, DEFAULT_SUB, keys[n]);
    MissingBelow(width, height, t, m, d, keys[n]);
    if keys[i].level > keys[n].level {
      FinerFirst(q, DEFAULT_SUB, i, n);
    }
    ShiftedKey(t, d, keys[i]);
  }

  /** `set_levels` as written: the drop branch issues `DELETE tiles WHERE
      ...`, which lacks FROM and is rejected by SQLite before anything
      changes. The other branches are as intended. */
  ghost function SetLevelsAsWritten(numLevels: int, width: nat, height: nat, meta: map<string, string>,
                                    t: map<TileKey, Blob>): (r: Built)
    ensures t != map[] && numLevels < MaxLevel(t) ==> r == Built(t, Fail(SqlSyntax))
  {
    if t != map[] && numLevels - MaxLevel(t) < 0 then Built(t, Fail(SqlSyntax))
    else SetLevelsSpec(numLevels, width, height, meta, t)
  }

  /** Every request to drop levels fails as written and leaves the table
      untouched, while the intended drop succeeds; on a table with a tile
      above zoom 0 the intended drop changes the table. Adding FROM is not
      enough to get there: see `DropUpdateExample`. */
  lemma SetLevelsAsWrittenNeverDrops(numLevels: int, width: nat, height: nat, meta: map<string, string>,
                                     t: map<TileKey, Blob>)
    requires t != map[] && 0 <= numLevels < MaxLevel(t)
    ensures SetLevelsAsWritten(numLevels, width, height, meta, t) == Built(t, Fail(SqlSyntax))
    ensures SetLevelsSpec(numLevels, width, height, meta, t).outcome == Pass
    ensures SetLevelsSpec(numLevels, width, height, meta, t).tiles != t
  {
    SetLevelsDrop(numLevels, width, height, meta, t);
    DroppedTable(t, MaxLevel(t) - numLevels, numLevels);
  }

  /** A 256 x 256 raster built with num_levels 2 holds one tile per zoom,
      written finest first. `set_levels(1)` is meant to drop zoom 0 and move
      the rest one level down. With FROM added, the DELETE leaves the rows
      (2, 0, 0) and (1, 0, 0) in that order, and the UPDATE then moves the
      first onto the second, which is still stored: IntegrityError. */
  lemma DropUpdateExample(meta: map<string, string>, b: Blob)
    ensures var t := map[TileKey(2, 0, 0) := b, TileKey(1, 0, 0) := b, TileKey(0, 0, 0) := b];
      && SetLevelsSpec(1, 256, 256, meta, t) == Built(map[TileKey(1, 0, 0) := b, TileKey(0, 0, 0) := b], Pass)
      && (forall k :: k in DropBelow(t, 1) <==> k in [TileKey(2, 0, 0), TileKey(1, 0, 0)])
      && UpdateRows([TileKey(2, 0, 0), TileKey(1, 0, 0)], 0, -1) == Err(Conflict)
  {
    var t := map[TileKey(2, 0, 0) := b, TileKey(1, 0, 0) := b, TileKey(0, 0, 0) := b];
    OneTileTop(t, b);
    SetLevelsDrop(1, 256, 256, meta, t);
    OneTileDrop(t, b);
    DropUpdateCollides([TileKey(2, 0, 0), TileKey(1, 0, 0)], 1, 0, 1);
  }

  lemma OneTileTop(t: map<TileKey, Blob>, b: Blob)
    requires t == map[TileKey(2, 0, 0) := b, TileKey(1, 0, 0) := b, TileKey(0, 0, 0) := b]
    ensures t != map[] && MaxLevel(t) == 2
    ensures forall k :: k in DropBelow(t, 1) <==> k in [TileKey(2, 0, 0), TileKey(1, 0, 0)]
  {
    assert TileKey(2, 0, 0) in t;
  }

  lemma OneTileDrop(t: map<TileKey, Blob>, b: Blob)
    requires t == map[TileKey(2, 0, 0) := b, TileKey(1, 0, 0) := b, TileKey(0, 0, 0) := b]
    ensures DropLevels(t, 1) == map[TileKey(1, 0, 0) := b, TileKey(0, 0, 0) := b]
  {
    var m := map[TileKey(2, 0, 0) := b, TileKey(1, 0, 0) := b];
    var want := map[TileKey(1, 0, 0) := b, TileKey(0, 0, 0) := b];
    assert DropBelow(t, 1) == m;
    var r := ShiftLevels(m, -1);
    forall k
      ensures k in r <==> k in want
      ensures k in r ==> r[k] == b
    {
      ShiftedKey(m, -1, k);
    }
    assert r == want;
  }
}
