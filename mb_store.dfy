/** The MBTiles database as the builder uses it (`_create_mbtiles`,
    `_insert_tile`, `_insert_metadata`, `_read_metadata`, `_tile_exists`,
    `_get_quad_mbtiles` and the statements of `set_levels` and
    `_copy_table`), with each table as a map from its unique key. */
module MbStore {
  import opened MbTypes
  import opened QuadTiles
  import opened LevelMaps

  /** An open database: the `metadata(name, value)` table with its unique
      index on name, the `tiles` table with its unique index on
      (zoom_level, tile_column, tile_row), and both as of the last commit. */
  class MBTiles {
    var metadata: map<string, string>
    var tiles: map<TileKey, Blob>
    var savedMetadata: map<string, string>
    var savedTiles: map<TileKey, Blob>

    /** `_create_mbtiles`: empty tables and indices, one metadata row per
        entry of `meta`, then a commit. */
    constructor (meta: map<string, string>)
      ensures metadata == meta && tiles == map[]
      ensures savedMetadata == meta && savedTiles == map[]
    {
      metadata, tiles := map[], map[];
      savedMetadata, savedTiles := map[], map[];
      new;
      var rest := meta.Keys;
      while rest != {}
        invariant rest <= meta.Keys
        invariant metadata == map k | k in meta.Keys - rest :: meta[k]
        invariant tiles == map[]
        decreases rest
      {
        var k :| k in rest;
        var _ := InsertMetadata(k, meta[k]);
        rest := rest - {k};
      }
      Commit();
    }

    /** `_insert_metadata`: the unique index on name rejects a second row. */
    method InsertMetadata(name: string, value: string) returns (outcome: Outcome)
      modifies this
      ensures name in old(metadata) ==> outcome == Fail(DuplicateMetadata(name)) && metadata == old(metadata)
      ensures name !in old(metadata) ==> outcome == Pass && metadata == old(metadata)[name := value]
      ensures tiles == old(tiles) && savedMetadata == old(savedMetadata) && savedTiles == old(savedTiles)
    {
      if name in metadata {
        outcome := Fail(DuplicateMetadata(name));
      } else {
        metadata := metadata[name := value];
        outcome := Pass;
      }
    }

    /** `_insert_tile`: the unique index on (zoom_level, tile_column, tile_row)
        rejects a key that is already stored. */
    method InsertTile(k: TileKey, blob: Blob) returns (outcome: Outcome)
      modifies this
      ensures k in old(tiles) ==> outcome == Fail(DuplicateTile(k)) && tiles == old(tiles)
      ensures k !in old(tiles) ==> outcome == Pass && tiles == old(tiles)[k := blob]
      ensures metadata == old(metadata) && savedMetadata == old(savedMetadata) && savedTiles == old(savedTiles)
    {
      if k in tiles {
        outcome := Fail(DuplicateTile(k));
      } else {
        tiles := tiles[k := blob];
        outcome := Pass;
      }
    }

    /** `db.commit()`: the current tables become durable. */
    method Commit()
      modifies this
      ensures savedMetadata == metadata && savedTiles == tiles
      ensures metadata == old(metadata) && tiles == old(tiles)
    {
      savedMetadata, savedTiles := metadata, tiles;
    }

    /** `_read_metadata`: the value of the row named `name`; with no such row
        `fetchone()` yields None and indexing it fails. */
    method ReadMetadata(name: string) returns (r: Result<string>)
      ensures r.Ok? <==> name in metadata
      ensures r.Ok? ==> r.value == metadata[name]
      ensures r.Err? ==> r.error == MetadataNotFound(name)
    {
      if name in metadata {
        r := Ok(metadata[name]);
      } else {
        r := Err(MetadataNotFound(name));
      }
    }

    /** `_tile_exists`: whether COUNT(*) of rows with the key is non-zero. */
    method TileExists(k: TileKey) returns (b: bool)
      ensures b <==> k in tiles
    {
      b := k in tiles;
    }

    /** `_get_quad_mbtiles`: each stored child of (level, tx, ty) pasted at
        its offset on the 2x2 canvas, which is then shrunk to one tile. */
    method QuadImage(level: int, tx: int, ty: int) returns (img: Image)
      ensures img == Thumbnail(QuadParts(tiles, level, tx, ty))
    {
      var children := ChildKeys(level, tx, ty);
      var parts: map<Offset, Blob> := map[];
      for i := 0 to 4
        invariant parts == PartsAmong(tiles, level, tx, ty, children[..i])
      {
        var c := children[i];
        assert children[..i + 1][..i] == children[..i];
        if c in tiles {
          parts := parts[PasteOffset(tx, ty, c) := tiles[c]];
        }
      }
      assert children[..4] == children;
      img := Thumbnail(parts);
    }

    /** `SELECT MAX(zoom_level) FROM tiles`: NULL for an empty table. */
    method MaxZoom() returns (m: Option<int>)
      ensures m.None? <==> tiles == map[]
      ensures m.Some? ==> tiles != map[] && m.value == MaxLevel(tiles)
    {
      m := None;
      var rest := tiles.Keys;
      while rest != {}
        invariant rest <= tiles.Keys
        invariant m.None? <==> rest == tiles.Keys
        invariant m.Some? ==> exists k :: k in tiles && k !in rest && k.level == m.value
        invariant m.Some? ==> forall k :: k in tiles && k !in rest ==> k.level <= m.value
        decreases rest
      {
        var k :| k in rest;
        if m.None? || k.level > m.value {
          m := Some(k.level);
        }
        rest := rest - {k};
      }
      if m.Some? {
        ghost var top :| top in tiles && top.level == MaxLevel(tiles);
        ghost var mk :| mk in tiles && mk.level == m.value;
        assert top.level <= m.value && mk.level <= MaxLevel(tiles);
      }
    }

    /** `UPDATE tiles SET zoom_level=zoom_level+d`, every row moved at once.
        SQLite moves one row at a time (`LevelMaps.UpdateRows`); the two agree
        for a move up on a table stored finest first, as `resume` writes it
        (`LevelMaps.UpdateRowsAgree`). */
    method ShiftZoom(d: int)
      modifies this
      ensures tiles == ShiftLevels(old(tiles), d)
      ensures metadata == old(metadata) && savedMetadata == old(savedMetadata) && savedTiles == old(savedTiles)
    {
      tiles := ShiftLevels(tiles, d);
    }

    /** `DELETE FROM tiles WHERE zoom_level<n`. */
    method DeleteBelow(n: int)
      modifies this
      ensures tiles == DropBelow(old(tiles), n)
      ensures metadata == old(metadata) && savedMetadata == old(savedMetadata) && savedTiles == old(savedTiles)
    {
      tiles := DropBelow(tiles, n);
    }

    /** The statements of `_copy_table` for the tiles: ATTACH, then
        `INSERT INTO tiles SELECT * FROM <other>.tiles`, then DETACH.
        The INSERT is one statement, so a key already present makes it fail
        as a whole and copy nothing. ATTACH and DETACH are not DML, and
        Python 2's sqlite3 commits the open transaction before each: the
        ATTACH makes earlier changes durable, the DETACH the copied rows. */
    method CopyTiles(rows: map<TileKey, Blob>) returns (outcome: Outcome)
      modifies this
      ensures old(tiles).Keys !! rows.Keys ==> outcome == Pass && tiles == old(tiles) + rows
      ensures !(old(tiles).Keys !! rows.Keys) ==> outcome == Fail(Conflict) && tiles == old(tiles)
      ensures metadata == old(metadata) && savedMetadata == metadata && savedTiles == tiles
    {
      Commit();
      if tiles.Keys !! rows.Keys {
        tiles := tiles + rows;
        outcome := Pass;
        Commit();
      } else {
        outcome := Fail(Conflict);
      }
    }
  }
}
