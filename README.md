# MBTiles pyramid builder in Dafny

This project models the core of `gdal2mbt`. The builder cuts a GDAL raster into
256-pixel tiles and stores them in an MBTiles SQLite database. Two revisions are
modelled: `gdal2mbt.py`, the current one, and `gdal2mbtiles.py`, the earlier one.

The current revision builds a pyramid of `num_levels + 1` zoom levels:

- The finest zoom, `num_levels`, is read straight from the raster.
- Every coarser tile is the 2x2 block of its children, shrunk to one tile.
- Tiles are visited finest level first, rows bottom to top, columns left to
  right. Tile rows follow TMS: row 0 is the bottom row.
- Optional sub-bounds restrict the build to a rectangle of base tiles.
- `resume` continues an interrupted build. It skips the longest prefix of the
  enumeration that is already stored.
- `split` cuts a raster into chunks that can be built apart.
- `merge` copies the chunk stores into one.
- `set_levels` renumbers an existing pyramid to a new number of levels.

The earlier revision has no sub-bounds and no `split`, `merge` or `set_levels`.

Modules, one per concern of the source:

- `MbTypes`: tile keys, symbolic images, encoded blobs, the raster, errors.
- `MbStore`: the database as a class `MBTiles`. Its tables are maps keyed by
  their unique index, and it keeps a copy of both tables as of the last commit.
- `TileGrid`: level sizes and sub-bounds (`get_level_size`, `get_level_tiles`,
  `get_level_sub`, `_tile_coord`, `_floor_tile_coord`).
- `TileOrder`: the `tile_coords` enumeration and the `get_tile_nr` numbering.
- `Bands`: the band-sequential to pixel-interleaved byte reordering of
  `_get_gdal_image`.
- `RasterWindow`: the raster window of each base tile (`get_gdal_tile`).
- `QuadTiles`: how a tile above the base level is assembled from its children
  (`_get_quad_mbtiles`).
- `PyramidBuild`: `create_tile` and `resume`. The loop is a method proved
  against the functional `ResumeSpec`, and the lemmas about the finished
  pyramid are stated on that function.
- `SplitChunks`, `StoreMerge`, `LevelMaps` and `LevelEdit`: `split`, `merge`
  and `_copy_table`, and `set_levels`.
- `MetaDefaults`: default metadata and `create`.
- `LegacyBuild`: `resume` and `create` of `gdal2mbtiles.py`.

Python 2 divides integers by flooring, and Dafny's `/` on `int` agrees with it
for the positive divisors used here. Float divisions of whole pixel counts are
modelled with `real`. `TileGrid.CeilOfQuotient` proves that their ceilings are
exact integer ceiling divisions.

Notes on what the code does:

- Every tile, blank or not, is its own row in `tiles`, written by
  `create_tile`.
- `set_levels` adds and drops levels at the coarse end. It renumbers every
  zoom so that the finest level becomes `num_levels`, and new levels
  0 .. diff - 1 are derived by `resume`.
- `resume` on a store that is already complete raises StopIteration
  (`Exhausted`). It does not end quietly.
- A base tile that needs padding is stored as the blank canvas, because
  `get_gdal_tile` loses the window it read (see Findings). The build, and
  every lemma about the pyramid it makes, uses `get_gdal_tile` as written.

Where the code is evidently wrong and stops with an error, the operation is
modelled as intended, next to a member that models the code as written (see
Findings).

## Model

| member | source | states |
|---|---|---|
| MbStore.MBTiles.constructor | gdal2mbt.py:75-87 | a new store holds exactly the given metadata rows and no tile, and both tables are committed |
| MbStore.MBTiles.InsertMetadata | gdal2mbt.py:119-120 | a name already present is rejected by the unique index and the table is unchanged; otherwise exactly that row is added; tiles and committed state are untouched |
| MbStore.MBTiles.InsertTile | gdal2mbt.py:115-117 | a key already present is rejected by the unique index (DuplicateTile) and nothing changes; otherwise exactly that row is added |
| MbStore.MBTiles.Commit | gdal2mbt.py:232 | the committed tables become the current ones, which are left as they were |
| MbStore.MBTiles.ReadMetadata | gdal2mbt.py:126-129 | succeeds exactly when a row with that name exists, with its value; a missing row is MetadataNotFound |
| MbStore.MBTiles.TileExists | gdal2mbt.py:131-135 | true exactly when the key is stored |
| MbStore.MBTiles.QuadImage | gdal2mbt.py:137-151 | the loop over the four children yields the thumbnail of QuadParts: each stored child pasted at its own offset |
| MbStore.MBTiles.MaxZoom | gdal2mbt.py:276 | NULL exactly for an empty table, otherwise the highest zoom of any stored tile |
| MbStore.MBTiles.ShiftZoom | gdal2mbt.py:280 | every zoom moves by d at once; columns, rows, blobs and everything else unchanged |
| MbStore.MBTiles.DeleteBelow | gdal2mbt.py:285 | the rows below zoom n are removed and every other row is kept as it was (the statement as intended) |
| MbStore.MBTiles.CopyTiles | gdal2mbt.py:68-73 | with no key in common, every row is copied; otherwise Conflict and nothing is copied; the ATTACH and DETACH commit, so the store ends committed either way |
| TileGrid.TileCoord | gdal2mbt.py:167-169 | each component is the least integer not below the size over the tile size |
| TileGrid.FloorTileCoord | gdal2mbt.py:170-172 | each component is the greatest integer not above the size over the tile size |
| TileGrid.CeilOfQuotient | gdal2mbt.py:167-169 | on whole numbers the float ceiling is exact integer ceiling division |
| TileGrid.CeilDivTwice | gdal2mbt.py:191-196 | ceiling division twice is ceiling division by the product, so level sizes can be computed level by level |
| TileGrid.LevelTiles | gdal2mbt.py:191-196 | `get_level_tiles` of the float level size is exactly the integer grid ceil(width / (2^(Z-L)·256)) x ceil(height / (2^(Z-L)·256)) |
| TileGrid.LevelHalves | gdal2mbt.py:191-196 | each level has ceil(n/2) tiles per axis where the next finer level has n |
| TileGrid.ParentInGrid | gdal2mbt.py:137-151 | the parent (col div 2, row div 2) of every tile above zoom 0 is in the grid of the level below |
| TileGrid.FirstChildInGrid | gdal2mbt.py:137-151 | every tile below the base level has its first child (2col, 2row) in the grid of the next level |
| TileGrid.LevelSub | gdal2mbt.py:198-203 | the rectangle is clamped to the level's grid, and the default sub-bounds select the whole grid |
| TileGrid.LevelSubMembership | gdal2mbt.py:198-203 | a tile is selected exactly when it is in the grid and its base-level footprint lies within the sub-bounds: right of left, above bottom, not past right or top |
| TileOrder.TileCoords | gdal2mbt.py:238-242 | the `tile_coords` generator: levels Z down to 0, each level's `get_level_sub` rectangle row by row from the bottom, columns left to right; its membership, order and numbering are stated by TileCoordsMembership, FinerFirst, TileCoordsDistinct and TileCoordsAscending |
| TileOrder.TotalTiles | gdal2mbt.py:235-236 | `total_tiles`: the sum of the full-grid tile counts of levels Z down to 0; DefaultNumbering proves it is the length of the whole-grid enumeration |
| TileOrder.TileNr | gdal2mbt.py:205-207 | `get_tile_nr`: 1 plus the tiles of all finer levels plus the row-major position in the level; TileNrRange, TileNrBounds and DefaultNumbering state its range and that it numbers the enumeration 1..total_tiles |
| TileOrder.TileNrRange | gdal2mbt.py:205-207 | a level's numbers lie between the tile count of all finer levels plus one and that count plus the level's own |
| TileOrder.TileNrBounds | gdal2mbt.py:205-236 | every tile of the pyramid is numbered within 1..total_tiles |
| TileOrder.TileCoordsAscending | gdal2mbt.py:205-242 | along `tile_coords` the tile number strictly increases and stays within 1..total_tiles, whatever the sub-bounds |
| TileOrder.TileCoordsDistinct | gdal2mbt.py:238-242 | the enumeration never repeats a key |
| TileOrder.TileCoordsMembership | gdal2mbt.py:198-242 | a key is enumerated exactly when its zoom is in 0..Z and it lies in that level's `get_level_sub` rectangle |
| TileOrder.TileCoordsInGrid | gdal2mbt.py:238-242 | every enumerated key lies in its level's grid |
| TileOrder.FinerFirst | gdal2mbt.py:238-242 | every key of a finer level comes before every key of a coarser one |
| TileOrder.DefaultNumbering | gdal2mbt.py:205-242 | with the default sub-bounds there are total_tiles keys and the i-th is tile number i + 1: the numbering is a bijection onto 1..total_tiles in enumeration order |
| Bands.Interleave | gdal2mbt.py:63-65 | the byte reordering of `_get_gdal_image`, rows then columns, one byte per band per pixel; InterleaveLayout states its layout, and the two round-trips with Deinterleave show it is a bijection |
| Bands.InterleaveLayout | gdal2mbt.py:63-65 | the conversion keeps every byte: byte b of pixel p of the output is byte p of band b of the raw window |
| Bands.DeinterleaveInterleave | gdal2mbt.py:63-65 | reading the converted bytes back band by band gives the raw window |
| Bands.InterleaveDeinterleave | gdal2mbt.py:63-65 | converting a band-sequential copy of interleaved bytes restores them, so the conversion is a bijection |
| Bands.Deinterleave | gdal2mbt.py:63-65 | the inverse layout change keeps the length |
| RasterWindow.TileTop | gdal2mbt.py:212-213 | the raster row of tile row ty's top edge is height - 256·(ty + 1) |
| RasterWindow.BaseWindow | gdal2mbt.py:210-215 | the `ReadRaster` window of base tile (tx, ty): x 256·tx, y max(0, oy), width min(256, width - ox), height min(256, 256 + oy); BaseWindowInRaster, WindowsCoverRaster and WindowsDisjoint state that the windows tile the raster |
| RasterWindow.NeedsPadding | gdal2mbt.py:216 | padding is done exactly when the read window is narrower or lower than a tile |
| RasterWindow.BaseGrid | gdal2mbt.py:234 | the base grid is ceil(width/256) x ceil(height/256) tiles |
| RasterWindow.BaseWindowInRaster | gdal2mbt.py:209-215 | the window of each base tile is non-empty and inside the raster, starts at column 256·tx and ends at raster row height - 256·ty |
| RasterWindow.WindowsCoverRaster | gdal2mbt.py:209-215 | every raster pixel lies in the window of some base tile of the grid |
| RasterWindow.WindowsDisjoint | gdal2mbt.py:209-215 | no pixel lies in the windows of two different base tiles |
| RasterWindow.WindowTile | gdal2mbt.py:209-215 | a pixel's window is that of the tile (col px div 256, row (height-1-py) div 256) |
| RasterWindow.GdalImage | gdal2mbt.py:53-66 | 3 bands give RGB, 4 give RGBA, any other count is UnsupportedBands; the image has the window's size, and its bytes are the window read from the raster converted to pixel-interleaved order |
| RasterWindow.BaseImageAsWritten | gdal2mbt.py:209-220 | as written: no raster is NoSource, a bad band count fails, and a tile that needs padding comes out as the blank canvas |
| RasterWindow.BaseImage | gdal2mbt.py:209-220 | corrected: a tile that needs padding is its window pasted on the transparent canvas at PadOffset; a whole tile is the 256x256 window |
| RasterWindow.PadOffsetInCanvas | gdal2mbt.py:209-220 | the padded window lies inside the canvas, against its left edge and its bottom edge |
| RasterWindow.PasteOffsetAsWritten | gdal2mbt.py:218 | the offset `(0, min(256, 256 + oy))` the code pastes at; PasteOffsetMisplaced shows it is the window's height and PaddingLostExample that it can lie below the canvas |
| RasterWindow.PasteOffsetMisplaced | gdal2mbt.py:218 | the offset the code pastes at is the window's height below the canvas top, which is where the window belongs only for a window 128 rows high |
| RasterWindow.PaddingLost | gdal2mbt.py:216-219 | for every readable raster, a padded tile is blank as written and differs from the intended tile |
| RasterWindow.PaddingLostExample | gdal2mbt.py:216-219 | a 300x256 raster: base tile (1, 0) has a 44x256 window, which is lost as written (and the code's paste offset (0, 256) is below the canvas) and kept when corrected |
| QuadTiles.ChildKeys | gdal2mbt.py:137-151 | the query names four distinct keys |
| QuadTiles.ChildKeysAreChildren | gdal2mbt.py:137-151 | they are exactly the keys one level finer whose column and row halve to the tile's |
| QuadTiles.PasteOffset | gdal2mbt.py:149 | where a child (col, row) is pasted on the 2x2 canvas: ((col - 2tx)·256, (1 + 2ty - row)·256); QuadOffsets, PasteOffsetInjective and ChildAtPaste state that the four children land on four distinct quadrants |
| QuadTiles.QuadOffsets | gdal2mbt.py:139-149 | the children land on the four distinct quadrants: left column at x 0, lower row at y 256 |
| QuadTiles.PasteOffsetInjective | gdal2mbt.py:139-149 | two keys of one level pasted at the same offset are the same key |
| QuadTiles.ChildAtPaste | gdal2mbt.py:139-149 | the child at a child's paste offset is that child |
| QuadTiles.PartsAmongContents | gdal2mbt.py:140-149 | for any sub-list of the children, each stored one is at its offset with its blob, and every part is such a child |
| QuadTiles.QuadPartsContents | gdal2mbt.py:137-151 | the canvas holds each stored child at its offset with its blob, every part is a stored child, and there are at most four parts |
| QuadTiles.QuadParts | gdal2mbt.py:139-151 | the parts pasted on the canvas by `_get_quad_mbtiles`: each stored child of the four at its offset; QuadPartsContents states exactly which parts there are |
| QuadTiles.QuadReadsOnlyChildren | gdal2mbt.py:137-151 | the derived tile depends on the four children and on nothing else in the store |
| PyramidBuild.TileImage | gdal2mbt.py:225-228 | the image `create_tile` makes: `get_gdal_tile` as written at the base level, the thumbnail of the stored children above it; Step and ChildrenBuilt state what it yields |
| PyramidBuild.Step | gdal2mbt.py:222-232 | a step inserts exactly the new key, in the store's format, and keeps every other row; a base tile is the image `get_gdal_tile` makes as written, the blank canvas when it needs padding; it fails if the image cannot be made or the key is already stored, and then the table is unchanged |
| PyramidBuild.CreateTile | gdal2mbt.py:222-232 | on an open store, does what Step says (padded base tiles blank, as written): success inserts and commits the row, failure inserts and commits nothing |
| PyramidBuild.CreateFrom | gdal2mbt.py:244-250 | the creation loop from the first missing key ends with the table and outcome of Run over the remaining keys, and the table is committed or unchanged; base tiles are made by `get_gdal_tile` as written |
| PyramidBuild.CreateNext | gdal2mbt.py:248-250 | one turn of the loop: the run from key j goes on from j + 1, or stops here with the table unchanged |
| PyramidBuild.ResumeSpec | gdal2mbt.py:182-250 | `resume` as a function of the store: metadata checks in the code's order, NoLevels for negative num_levels, StopIteration on a complete store, otherwise Run from the first missing key; ResumeAfterInterruption, ResumedKeys and FreshBuild state what it builds |
| PyramidBuild.Resume | gdal2mbt.py:182-250 | `resume` ends with the table and outcome of ResumeSpec: missing metadata row, negative num_levels, complete store (StopIteration) or the run from the first missing key; base tiles are made by `get_gdal_tile` as written |
| PyramidBuild.Run | gdal2mbt.py:244-250 | the table after `create_tile` has run on each key in turn, stopping at the first failure; RunSplit, RunRows, RunFails and RunPasses state how runs compose and what they store |
| PyramidBuild.RunSplit | gdal2mbt.py:244-250 | running a + b is running a, then b if a passed |
| PyramidBuild.RunRows | gdal2mbt.py:222-250 | a run never changes or removes a row and adds only visited keys; a passing run stores every visited key, none stored before, none visited twice |
| PyramidBuild.RunFails | gdal2mbt.py:248-250 | a run whose first step fails stops there with the table unchanged |
| PyramidBuild.RunPasses | gdal2mbt.py:248-250 | a run whose first step passes goes on from the next key |
| PyramidBuild.PresentPrefix | gdal2mbt.py:244 | `dropwhile` skips keys that are all stored and stops at the first missing one |
| PyramidBuild.PresentPrefixUnique | gdal2mbt.py:244 | that index is the only one with these two properties |
| PyramidBuild.ResumeAfterInterruption | gdal2mbt.py:182-250 | if a build committed its first m tiles and stopped, `resume` on the committed table ends exactly as the uninterrupted build; after a complete build it raises StopIteration |
| PyramidBuild.ContinueRun | gdal2mbt.py:244-250 | after a passing run over the first m keys, the stored prefix is m and the run from key m completes the whole run |
| PyramidBuild.PrefixAfterRun | gdal2mbt.py:244 | after a passing run over the first m of distinct fresh keys, the stored prefix is exactly m |
| PyramidBuild.ResumedKeys | gdal2mbt.py:244-250 | a passing `resume` run leaves stored exactly the keys stored before and the enumerated ones |
| PyramidBuild.MissingFromPrefix | gdal2mbt.py:244 | every enumerated key that is missing is among those the run visits |
| PyramidBuild.StepCanonical | gdal2mbt.py:222-232 | in a build order, each step turns the canonical table of the keys before it into that of the keys up to it; canonical base tiles are those `get_gdal_tile` makes as written |
| PyramidBuild.ChildrenBuilt | gdal2mbt.py:227-228 | when a tile above the base level is built, the children it reads are exactly its canonical children; a padded base child is the blank canvas the code stored |
| PyramidBuild.BuildFromScratch | gdal2mbt.py:244-250 | building any build order on an empty table passes and yields the canonical pyramid, whatever the order; its padded base tiles are blank, as the code stores them |
| PyramidBuild.ChildEnumerated | gdal2mbt.py:198-242 | with aligned sub-bounds, every grid child of an enumerated tile is enumerated |
| PyramidBuild.TileCoordsBuildOrder | gdal2mbt.py:238-242 | aligned sub-bounds enumerate a build order: a tile's children come before the tile |
| PyramidBuild.FreshBuild | gdal2mbt.py:177-250 | on a fresh store with a readable raster and aligned sub-bounds, `resume` builds the canonical pyramid of the enumerated tiles (its padded base tiles blank, as the code stores them), or raises StopIteration when there are none |
| SplitChunks.ChunkBounds | gdal2mbt.py:258-259 | the sub-bounds of chunk (cx, cy): `_tile_coord` of its two corners in pixels; ChunkBoundsExact states them in base tiles |
| SplitChunks.Split | gdal2mbt.py:252-261 | the chunks `split` yields, cy outer and cx inner over the level-0 grid; SplitLayout, SplitChunkOf and SplitPartition state that they partition the pyramid |
| SplitChunks.ChunkCounts | gdal2mbt.py:256-257 | the chunks per axis are the exact ceiling of the raster size over 2^n·256 |
| SplitChunks.ChunkBoundsExact | gdal2mbt.py:258-259 | chunk (cx, cy) spans base tiles [cx·2^n, (cx+1)·2^n) by [cy·2^n, (cy+1)·2^n) |
| SplitChunks.SplitLayout | gdal2mbt.py:252-261 | there is one chunk per tile of level 0, and chunk number cy·xchunks + cx is chunk (cx, cy) |
| SplitChunks.SplitIndex | gdal2mbt.py:258-261 | chunk (cx, cy) of the grid is at index cy·xchunks + cx |
| SplitChunks.ChunkAligned | gdal2mbt.py:252-261 | every chunk is aligned for the pyramid it is built into |
| SplitChunks.DefaultCoordsAreGrid | gdal2mbt.py:238-242 | with the default sub-bounds, `tile_coords` enumerates exactly the grid |
| SplitChunks.ChunkMembership | gdal2mbt.py:252-261 | a chunk enumerates exactly the grid tiles over level-0 tile (cx, cy): that tile and its descendants |
| SplitChunks.SplitChunkOf | gdal2mbt.py:252-261 | chunk i enumerates k exactly when k is in the grid and its level-0 ancestor is tile i of level 0 |
| SplitChunks.ChunkCorner | gdal2mbt.py:252-261 | every chunk is named after a level-0 tile of the grid, so no chunk is empty |
| SplitChunks.SplitPartition | gdal2mbt.py:252-261 | the chunks partition the pyramid: a key is in the full enumeration exactly when some chunk enumerates it, and then only one does |
| StoreMerge.MergeSpec | gdal2mbt.py:263-271 | the intended merge: each source's tiles copied in turn, stopping at the first key conflict; MergeOutcome, MergeKeeps, MergeFrom and MergeCopies state its result |
| StoreMerge.MergeOutcome | gdal2mbt.py:263-271 | the intended merge succeeds exactly when the tables are disjoint from each other and from the output, and it can only fail with Conflict |
| StoreMerge.MergeKeeps | gdal2mbt.py:263-271 | the merge never overwrites a row of the output |
| StoreMerge.MergeFrom | gdal2mbt.py:263-271 | every row the output ends with was there before or comes from a source, with that source's blob |
| StoreMerge.MergeCopies | gdal2mbt.py:263-271 | when the tables are disjoint, every row of every source is copied |
| StoreMerge.Merge | gdal2mbt.py:270-271 | on an open output, the copy loop ends as MergeSpec says; with any source given the output ends committed, with none nothing is committed |
| StoreMerge.MergeAsWritten | gdal2mbt.py:263-271 | as written, the merge copies no row: it passes only when there is nothing to copy and the output is a connection |
| StoreMerge.MergeAsWrittenCopiesNothing | gdal2mbt.py:68-73 | whenever the intended merge would copy rows and succeed, the code as written fails first |
| StoreMerge.MergeAsWrittenExample | gdal2mbt.py:68-73 | two disjoint one-tile stores: merged as intended, FormatArguments as written |
| StoreMerge.ChunkTablesDisjoint | gdal2mbt.py:252-271 | the stores built for the chunks of `split` share no key |
| StoreMerge.MergeCompleteness | gdal2mbt.py:252-271 | building every chunk on its own store succeeds, and merging them gives exactly the table of one build of the whole raster |
| StoreMerge.MergedTable | gdal2mbt.py:252-271 | the merged chunk tables are the canonical table of the full enumeration; its padded base tiles are blank, as the code stores them |
| LevelMaps.ShiftedKey | gdal2mbt.py:280 | after the UPDATE a key is stored exactly when the key d levels lower was, with its blob |
| LevelMaps.DropBelow | gdal2mbt.py:285 | keeps exactly the rows at zoom n or above, with their blobs |
| LevelMaps.MaxLevel | gdal2mbt.py:276 | the highest zoom is some stored key's and bounds all of them |
| LevelMaps.ShiftCompose | gdal2mbt.py:280-286 | shifting by a then by b is shifting by a + b |
| LevelMaps.ShiftZero | gdal2mbt.py:280 | shifting by 0 changes nothing |
| LevelMaps.ShiftMaxLevel | gdal2mbt.py:276-280 | shifting moves the highest zoom by the same amount |
| LevelMaps.AddThenDropLevels | gdal2mbt.py:278-287 | adding d levels, with any tiles added below zoom d, and then dropping d levels restores the table |
| LevelMaps.DropAdded | gdal2mbt.py:285 | dropping below n removes exactly the rows added below n |
| LevelMaps.UpdateRows | gdal2mbt.py:286 | the UPDATE as SQLite runs it, one row at a time in rowid order, with the unique index checked at each row; the result keeps the row count, and UpdateRowsAgree and UpdateRowsCollide state when it succeeds and when it fails |
| LevelMaps.UpdateRowsAgree | gdal2mbt.py:280 | SQLite's row-by-row UPDATE, visiting rows finest first when moving up (the order `resume` writes) or coarsest first when moving down, succeeds and moves every key by d |
| LevelMaps.ShiftAllKeys | gdal2mbt.py:280 | the keys moved one by one are exactly the keys of the shifted table |
| LevelMaps.UpdateRowsCollide | gdal2mbt.py:286 | the row-by-row UPDATE fails with IntegrityError when a row is moved onto the key of a row after it |
| LevelMaps.DropUpdateCollides | gdal2mbt.py:286 | moving down by n a table stored finest first fails when it holds a tile and the tile n levels below it at the same column and row |
| LevelEdit.SetLevelsSpec | gdal2mbt.py:273-287 | `set_levels` as intended, on the table: NoTiles for an empty table, then the adding branch, the drop or nothing by the sign of num_levels - MAX(zoom_level); SetLevelsDrop, GrowThenShrink and DroppedTable state its effect |
| LevelEdit.SetLevels | gdal2mbt.py:273-287 | `set_levels` ends as SetLevelsSpec says (empty table NoTiles, add, the intended drop, or nothing), and either the tiles and both committed tables are unchanged or the store ends committed, metadata and tiles alike (the commits at 281 and 287 and each tile `resume` commits) |
| LevelEdit.GrowZoom | gdal2mbt.py:278-282 | the adding branch: shift, commit, then `resume` without a raster; ends as AddLevels says, with metadata and tiles committed |
| LevelEdit.DropZoom | gdal2mbt.py:283-287 | the dropping branch as intended: delete below zoom n, every zoom moved down at once, commit; metadata and tiles end committed |
| LevelEdit.DropLevelsRows | gdal2mbt.py:285-286 | dropping d levels keeps exactly the tiles at zoom d or above, each d levels lower with its blob |
| LevelEdit.DropLevelsTop | gdal2mbt.py:276-286 | dropping d levels lowers the highest zoom by d |
| LevelEdit.SetLevelsDrop | gdal2mbt.py:283-287 | dropping succeeds and leaves the table with its MaxLevel - num_levels coarsest levels dropped |
| LevelEdit.DroppedTable | gdal2mbt.py:283-287 | after the drop, a non-negative num_levels is the highest zoom and the kept tiles are exactly those at zoom d or above |
| LevelEdit.RaisedGrid | gdal2mbt.py:278-282 | a pyramid renumbered d levels up has the same grid, d levels higher |
| LevelEdit.ResumeRows | gdal2mbt.py:182-250 | a successful `resume` adds only new rows of the grid and keeps every row it found |
| LevelEdit.GrowAddsBelow | gdal2mbt.py:278-282 | adding levels to a complete pyramid adds tiles only below zoom d, and num_levels becomes the highest zoom |
| LevelEdit.GrowPasses | gdal2mbt.py:278-282 | adding levels to a complete pyramid with its metadata succeeds without a raster |
| LevelEdit.RunDerived | gdal2mbt.py:222-232 | a run over distinct missing keys above the base level cannot fail |
| LevelEdit.GrowThenShrink | gdal2mbt.py:273-287 | adding levels to a complete pyramid and then setting the old level count again restores the table exactly |
| LevelEdit.ShrinkBack | gdal2mbt.py:283-287 | a shifted pyramid with rows added below zoom d goes back to the original when its d coarsest levels are dropped |
| LevelEdit.SetLevelsAsWritten | gdal2mbt.py:273-287 | as written, every request to drop levels fails with SqlSyntax and changes nothing |
| LevelEdit.SetLevelsAsWrittenNeverDrops | gdal2mbt.py:283-287 | for every valid drop request, the code as written fails, while the intended drop succeeds and changes the table |
| LevelEdit.DropUpdateExample | gdal2mbt.py:283-287 | a one-tile three-level pyramid and `set_levels(1)`: the intended drop keeps two tiles, but with FROM added the UPDATE meets (2, 0, 0) before (1, 0, 0) and fails |
| LegacyBuild.LegacyLevelTiles | gdal2mbtiles.py:175-177 | the earlier `get_level_tiles` is the same integer grid as the current one |
| LegacyBuild.LegacyCoords | gdal2mbtiles.py:212-216 | the earlier `tile_coords`: every level's whole grid, Z down to 0, rows from the bottom; LegacyCoordsDefault and LegacyCoordsGrid state it |
| LegacyBuild.LegacyCoordsDefault | gdal2mbtiles.py:212-216 | the earlier whole-grid enumeration is the current one with the default sub-bounds |
| LegacyBuild.LegacyCoordsGrid | gdal2mbtiles.py:212-216 | it visits every tile of every level's grid and nothing else |
| LegacyBuild.LegacyNumbering | gdal2mbtiles.py:179-216 | its i-th key is tile number i + 1, a bijection onto 1..total_tiles |
| LegacyBuild.LegacyResumeSpec | gdal2mbtiles.py:162-224 | the earlier `resume` as a function of the store; LegacyResumeAgrees shows it is the current one with the default sub-bounds |
| LegacyBuild.LegacyResumeAgrees | gdal2mbtiles.py:162-224 | the earlier `resume` behaves as the current one with the default sub-bounds, on every store and every num_levels |
| LegacyBuild.LegacyResumeCompletes | gdal2mbtiles.py:162-224 | a passing earlier `resume` leaves every grid tile stored and adds nothing outside the grid |
| LegacyBuild.LegacyResume | gdal2mbtiles.py:162-224 | on an open store, ends as LegacyResumeSpec says, committed or unchanged; base tiles are made by `get_gdal_tile` as written (gdal2mbtiles.py:190-193 also stores the blank canvas) |
| LegacyBuild.LegacyCreate | gdal2mbtiles.py:158-160 | completes the caller's dictionary in place, creates a store holding it, and resumes on it; the store ends committed, metadata (gdal2mbtiles.py:76) and every tile (gdal2mbtiles.py:206) alike, so an interrupted `create` can be resumed; padded base tiles come out blank, as written |
| MetaDefaults.DefaultMetadata | gdal2mbt.py:94-106 | the eight default names, with PNG as format and the raster's bounds, srs and resolution |
| MetaDefaults.WithDefaults | gdal2mbt.py:108-109 | every name the caller set keeps its value, and every other default name gets its default |
| MetaDefaults.WithDefaultsIsUnion | gdal2mbt.py:108-109 | completing is the map union in which the caller's entries win |
| MetaDefaults.WithDefaultsIdempotent | gdal2mbt.py:108-109 | completing twice changes nothing more |
| MetaDefaults.DefaultsComplete | gdal2mbt.py:89-110 | the completed metadata has every row `resume` reads; its format is the caller's or PNG |
| MetaDefaults.MetadataDict.FillDefaults | gdal2mbt.py:108-109 | the loop, in any iteration order, leaves the dictionary completed with the defaults |
| MetaDefaults.GetMetadata | gdal2mbt.py:89-110 | returns the caller's own dictionary, completed in place |
| MetaDefaults.Create | gdal2mbt.py:177-180 | completes the caller's dictionary, creates a store holding it, and ends as ResumeSpec says on the empty table; the store ends committed, metadata (gdal2mbt.py:86) and every tile (gdal2mbt.py:232) alike, so an interrupted `create` can be resumed; padded base tiles come out blank, as written |
| MetaDefaults.CreateBuilds | gdal2mbt.py:177-180 | with a readable raster and aligned sub-bounds, `create` never stops for missing metadata and builds the canonical pyramid in the caller's format (or raises StopIteration with no tile); its padded base tiles are blank, as the code stores them |
| MetaDefaults.DefaultArgAsWritten | gdal2mbt.py:89-110 | as written, a call without metadata completes the one shared default dictionary: what it held survives, and the defaults are added |
| MetaDefaults.DefaultArgLeaks | gdal2mbt.py:177-180 | as written, a second store created without metadata gets the first raster's bounds, srs and resolution |
| MetaDefaults.DefaultArgLeaksExample | gdal2mbt.py:177-180 | concretely, a second raster's own bounds are lost |
| MetaDefaults.MetadataFor | gdal2mbt.py:89-110 | corrected: without metadata the result is exactly the defaults of this raster; with metadata, its completion |
| MetaDefaults.MetadataForOwnRaster | gdal2mbt.py:89-110 | corrected, a store created without metadata describes its own raster |

## Left out

- Georeferencing is not modelled: the geotransform, the reprojection to and from WGS84 (`_get_gdal_extent`, `_get_mbtiles_extent`, `_to_wgs84`, `_from_wgs84`) and the float `int((right - left) / resolution)`. The raster size in pixels is a parameter (`width`, `height`), and the bounds, spatial reference and resolution texts are given strings.
- Pixel content is not modelled. PIL decoding, pasting, `thumbnail` and `save` are symbolic: an image records how it was made (`Image`), and a blob records the image and the format it was saved in (`Blob`).
- GDAL's `ReadRaster` is a function field of `Dataset`, and opening a file by name (`_get_gdal_dataset`) is left out. A raster is given already open, or as `None` for `resume` without a source.
- SQL mechanics are left out. Connections, the `CREATE TABLE`/`CREATE INDEX` statements, cursors and connecting by file name are modelled as an `MBTiles` object with one map per table. The object also records both maps as of the last commit. `ATTACH`/`DETACH` appear only through the commit Python 2's sqlite3 issues before each.
- MbStore.MBTiles.ShiftZoom: moves every row at once, since a map has no row order. SQLite moves one row at a time in rowid order and checks the unique index after each. `LevelMaps.UpdateRows` models that on a list of keys. `UpdateRowsAgree` shows the two agree for the adding branch on a table stored finest first. A merged table is stored chunk by chunk, not finest first, and whether shifting it up collides is not modelled.
- SetLevels: its drop branch is the intended effect, `DropLevels`. With FROM added to the DELETE, SQLite still rejects the UPDATE on a table stored finest first whenever the highest zoom is at least twice the levels dropped (`DropUpdateExample`, and Findings); the contract does not state this.
- DropZoom: uses the same at-once UPDATE as SetLevels.
- SpecDropBy: equates the drop branch with the DELETE and the at-once UPDATE, as SetLevels does.
- DropStatements: the same at-once UPDATE as SetLevels.
- SetLevelsAsWrittenNeverDrops: its clause that the drop succeeds is about the intended effect `DropLevels`, not about the two statements with FROM added, which fail as `DropUpdateExample` shows.
- Metadata values are strings. `resolution` is a float in the source and is stored here as its text.
- The order in which a Python 2 dict yields its items is left open. `MetadataDict.FillDefaults` and the `MBTiles` constructor take the keys in any order.
- Logging (`info`) is left out. `get_tile_nr` serves only the log lines, and it is modelled for its numbering properties.
- StoreMerge.Merge: takes the output as an open store. When `merge` is given a file name, it opens the file and, for a new file, first copies the metadata of the first source; that path is not modelled beyond its failure in `MergeAsWritten`. Merging a store into itself is excluded (`out !in sources`).
- MergeAsWritten: models only the first failure each path meets. The later defects of `_copy_table` are not modelled: the cursor used as a context manager, the table name passed as a bound parameter, and the `metadata` copy going into `tiles`.
- SplitChunks.Split: takes `num_levels` as a natural number. A negative `num_levels` makes `2 ** n` a float in Python, which is not modelled.
- `_insert_bounds` calls an undefined `insert_metadata` and is never used. It is not part of this model.
- The command-line front end (`gdal2mbt_cli.py`) and the packaging script (`setup.py`) are not part of this model.

## Findings

| source | as written | input that shows it | evidently intended | confidence | as-written member | corrected member |
|---|---|---|---|---|---|---|
| gdal2mbt.py:285 | `DELETE tiles WHERE zoom_level<?` has no `FROM`; SQLite rejects it, so every request to drop levels raises and changes nothing | a store with tiles at zooms 0..2 and `set_levels(1, db)` | the coarsest levels dropped and the rest renumbered (`DropLevels`); adding `FROM` alone is not enough, see the next row | not executed | LevelEdit.SetLevelsAsWrittenNeverDrops | LevelEdit.SetLevelsDrop |
| gdal2mbt.py:286 | `UPDATE tiles SET zoom_level=zoom_level+?` with a negative diff: SQLite moves one row at a time in rowid order and checks the unique index at each, so on a table written finest first a row at zoom m lands on the stored row at zoom m - n whenever m - n is at least n | tiles at zooms 0..2 of a 256 x 256 raster, and `set_levels(1, db)` with `FROM` added at line 285 | every kept row moved down by n, for instance by visiting the rows coarsest first | not executed | LevelEdit.DropUpdateExample | LevelMaps.UpdateRowsAgree |
| gdal2mbt.py:69 | `_copy_table` formats a two-placeholder string with one value (`% db`), which raises TypeError before any row is copied; for an output given by name, `isfile` (line 265) is never imported | `merge(conn, a, b)` with two stores of disjoint chunks | the tiles of each source copied into the output and committed at its DETACH, failing only on a key conflict | not executed | StoreMerge.MergeAsWrittenExample | StoreMerge.MergeCompleteness |
| gdal2mbt.py:89 | the default `metadata={}` is one dict shared by every call, and it is completed in place; `create` (line 177) passes it on; gdal2mbtiles.py:79 and 158 do the same | two `create` calls without metadata, for rasters with different bounds | each call starts from an empty dict, so each store describes its own raster | not executed | MetaDefaults.DefaultArgLeaksExample | MetaDefaults.MetadataForOwnRaster |
| gdal2mbt.py:218 | `img.paste(img, ...)` pastes the window onto itself, and the blank canvas `img_` is returned, so every edge tile that needs padding is stored fully transparent; gdal2mbtiles.py:192 is the same. The offset `(0, min(256, 256 + oy))` is also wrong: it is the window's height, not 256 minus it (`PasteOffsetMisplaced`), so pasting onto `img_` alone would still put a full-height window below the canvas and misplace a top-edge one | a 300 x 256 raster with `num_levels` 0: base tile (1, 0) has a 44 x 256 window | the window pasted onto the canvas at its place in the tile, (0, 256 - window height) | not executed | RasterWindow.PaddingLostExample | RasterWindow.PadOffsetInCanvas |
