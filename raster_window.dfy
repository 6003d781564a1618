/** The base-level tiles of `resume` are read straight from the raster
    (`get_gdal_tile` and `_get_gdal_image` in gdal2mbt.py). Tile rows count up
    from the bottom (TMS), raster rows count down from the top, so the read
    window is flipped vertically and clipped to the raster. */
module RasterWindow {
  import opened MbTypes
  import opened Arith
  import opened TileGrid
  import opened Bands

  /** A `ReadRaster(x, y, width, height)` window in raster pixels; y counts
      down from the raster's top row. */
  datatype Window = Window(x: int, y: int, width: int, height: int)

  function Min(a: int, b: int): int { if a < b then a else b }

  predicate InWindow(w: Window, px: int, py: int) {
    w.x <= px < w.x + w.width && w.y <= py < w.y + w.height
  }

  /** `oy`: the raster row of the top edge of tile row `ty`, written in terms
      of `in_ytiles` as `get_gdal_tile` does; it is negative for a top tile
      that sticks out above the raster. */
  function TileTop(p: Pyramid, ty: int): (oy: int)
    ensures oy == p.height - TILE_SIZE * (ty + 1)
  {
    var rows := Rows(p, p.z);
    ((rows - ty) * TILE_SIZE) - TILE_SIZE - (rows * TILE_SIZE - p.height)
  }

  /** The window `get_gdal_tile` reads for base tile (tx, ty). */
  function BaseWindow(p: Pyramid, tx: int, ty: int): Window {
    var ox := tx * TILE_SIZE;
    var oy := TileTop(p, ty);
    Window(ox, Max(0, oy), Min(TILE_SIZE, p.width - ox), Min(TILE_SIZE, TILE_SIZE + oy))
  }

  /** The condition under which `get_gdal_tile` pads the tile: it holds
      exactly when the window is smaller than a whole tile. */
  predicate NeedsPadding(p: Pyramid, tx: int, ty: int): (r: bool)
    ensures r <==> BaseWindow(p, tx, ty).width < TILE_SIZE || BaseWindow(p, tx, ty).height < TILE_SIZE
  {
    var ox := tx * TILE_SIZE;
    var oy := TileTop(p, ty);
    TILE_SIZE + oy < TILE_SIZE || p.width - ox < TILE_SIZE
  }

  /** The base grid has ceil(in_width / 256) x ceil(in_height / 256) tiles. */
  lemma BaseGrid(p: Pyramid)
    ensures Cols(p, p.z) == CeilDiv(p.width, TILE_SIZE) && Rows(p, p.z) == CeilDiv(p.height, TILE_SIZE)
  {
    assert TileSpan(p, p.z) == TILE_SIZE;
  }

  /** The window of a base tile in the grid starts at column 256 * tx, is
      non-empty and lies inside the raster; its bottom edge is raster row
      in_height - 256 * ty, so tile row 0 ends at the raster's bottom row. */
  lemma BaseWindowInRaster(p: Pyramid, tx: int, ty: int)
    requires InGrid(p, TileKey(p.z, tx, ty))
    ensures var w := BaseWindow(p, tx, ty);
      && w.x == TILE_SIZE * tx && w.y == Max(0, p.height - TILE_SIZE * (ty + 1))
      && 0 < w.width && 0 < w.height
      && 0 <= w.x && w.x + w.width <= p.width
      && 0 <= w.y && w.y + w.height <= p.height
      && w.y + w.height == p.height - TILE_SIZE * ty
  {
    BaseGrid(p);
    CeilDivBounds(p.width, TILE_SIZE);
    CeilDivBounds(p.height, TILE_SIZE);
    MulLt(tx, Cols(p, p.z), TILE_SIZE);
    MulLt(ty, Rows(p, p.z), TILE_SIZE);
  }

  /** The base tile whose window holds raster pixel (px, py). */
  function PixelTile(p: Pyramid, px: int, py: int): TileKey {
    TileKey(p.z, px / TILE_SIZE, (p.height - 1 - py) / TILE_SIZE)
  }

  /** The windows of the base grid tile the raster: every raster pixel lies in
      the window of a base tile, and in the window of no other base tile. */
  lemma WindowsCoverRaster(p: Pyramid, px: int, py: int)
    requires 0 <= px < p.width && 0 <= py < p.height
    ensures InGrid(p, PixelTile(p, px, py))
    ensures InWindow(BaseWindow(p, PixelTile(p, px, py).col, PixelTile(p, px, py).row), px, py)
  {
    var k := PixelTile(p, px, py);
    BaseGrid(p);
    CeilDivBounds(p.width, TILE_SIZE);
    CeilDivBounds(p.height, TILE_SIZE);
  }

  lemma WindowsDisjoint(p: Pyramid, a: TileKey, b: TileKey, px: int, py: int)
    requires a.level == p.z && b.level == p.z && InGrid(p, a) && InGrid(p, b)
    requires InWindow(BaseWindow(p, a.col, a.row), px, py)
    requires InWindow(BaseWindow(p, b.col, b.row), px, py)
    ensures a == b
  {
    WindowTile(p, a, px, py);
    WindowTile(p, b, px, py);
  }

  lemma WindowTile(p: Pyramid, k: TileKey, px: int, py: int)
    requires k.level == p.z && InGrid(p, k)
    requires InWindow(BaseWindow(p, k.col, k.row), px, py)
    ensures k == PixelTile(p, px, py)
  {
    BaseWindowInRaster(p, k.col, k.row);
    DivModUnique(px, TILE_SIZE, k.col, px - TILE_SIZE * k.col);
    DivModUnique(p.height - 1 - py, TILE_SIZE, k.row, p.height - 1 - py - TILE_SIZE * k.row);
  }

  /** `_get_gdal_image`: the band count picks the PIL mode, the window is read
      and converted to pixel-interleaved bytes. */
  function GdalImage(ds: Dataset, w: Window): (r: Result<Image>)
    ensures ds.rasterCount != 3 && ds.rasterCount != 4 <==> r == Err(UnsupportedBands(ds.rasterCount))
    ensures r.Ok? ==> r.value.Pixels? && r.value.width == w.width && r.value.height == w.height
    ensures r.Ok? ==> r.value.mode == (if ds.rasterCount == 3 then RGB else RGBA)
    ensures r.Ok? ==> r.value.data == Interleave(ds.readRaster(w.x, w.y, w.width, w.height), w.width, w.height)
  {
    if ds.rasterCount == 3 || ds.rasterCount == 4 then
      var mode := if ds.rasterCount == 3 then RGB else RGBA;
      var raw := ds.readRaster(w.x, w.y, w.width, w.height);
      Ok(Pixels(mode, w.width, w.height, Interleave(raw, w.width, w.height)))
    else
      Err(UnsupportedBands(ds.rasterCount))
  }

  /** `get_gdal_tile` as written. A missing source fails before anything is
      read. The window is read and converted even when the tile needs
      padding; a padded tile then comes out as the blank canvas, because the
      code pastes the window onto itself rather than onto that canvas (and
      at `PasteOffsetAsWritten`, which is not where it belongs either). */
  function BaseImageAsWritten(source: Option<Dataset>, p: Pyramid, tx: int, ty: int): (r: Result<Image>)
    ensures source.None? ==> r == Err(NoSource)
    ensures source.Some? ==> (r.Err? <==> source.value.rasterCount != 3 && source.value.rasterCount != 4)
    ensures r.Ok? && NeedsPadding(p, tx, ty) ==> r.value == Blank
    ensures r.Ok? && !NeedsPadding(p, tx, ty) ==>
      r.value.Pixels? && r.value.width == TILE_SIZE && r.value.height == TILE_SIZE
  {
    if source.None? then Err(NoSource)
    else
      var img :- GdalImage(source.value, BaseWindow(p, tx, ty));
      if NeedsPadding(p, tx, ty) then Ok(Blank) else Ok(img)
  }

  /** The offset `get_gdal_tile` pastes at: `(0, min(256, 256 + oy))`. */
  function PasteOffsetAsWritten(p: Pyramid, ty: int): Offset {
    Offset(0, Min(TILE_SIZE, TILE_SIZE + TileTop(p, ty)))
  }

  /** Where the window of base tile (tx, ty) belongs on the tile's canvas:
      its corner relative to the tile's top-left corner in raster pixels.
      This is 256 minus the window's height down from the top, where the
      code pastes at the window's height (`PasteOffsetMisplaced`). */
  function PadOffset(p: Pyramid, tx: int, ty: int): Offset {
    var w := BaseWindow(p, tx, ty);
    Offset(w.x - tx * TILE_SIZE, w.y - TileTop(p, ty))
  }

  /** The offset as written is the window's height below the canvas's top,
      so it agrees with where the window belongs only for a window exactly
      128 rows high; a window of full height is pasted entirely below the
      canvas. */
  lemma PasteOffsetMisplaced(p: Pyramid, tx: int, ty: int)
    ensures PasteOffsetAsWritten(p, ty) == Offset(0, BaseWindow(p, tx, ty).height)
    ensures PasteOffsetAsWritten(p, ty) == PadOffset(p, tx, ty) <==> BaseWindow(p, tx, ty).height == TILE_SIZE / 2
  {
  }

  /** `get_gdal_tile` as evidently intended: a window smaller than a tile is
      pasted onto the transparent tile canvas at the place its pixels occupy
      in the tile, so the raster's right and top edges line up with the
      tile's. */
  function BaseImage(source: Option<Dataset>, p: Pyramid, tx: int, ty: int): (r: Result<Image>)
    ensures source.None? ==> r == Err(NoSource)
    ensures source.Some? ==> (r.Err? <==> source.value.rasterCount != 3 && source.value.rasterCount != 4)
    ensures r.Ok? && NeedsPadding(p, tx, ty) ==>
      r.value.Padded? && r.value.part == GdalImage(source.value, BaseWindow(p, tx, ty)).value
      && r.value.at == PadOffset(p, tx, ty)
    ensures r.Ok? && !NeedsPadding(p, tx, ty) ==>
      r.value.Pixels? && r.value.width == TILE_SIZE && r.value.height == TILE_SIZE
  {
    if source.None? then Err(NoSource)
    else
      var img :- GdalImage(source.value, BaseWindow(p, tx, ty));
      if NeedsPadding(p, tx, ty) then Ok(Padded(img, PadOffset(p, tx, ty))) else Ok(img)
  }

  /** For a tile of the base grid, the window lands inside the canvas against
      its left and bottom edges: column 0, and the bottom row of the window on
      the canvas's bottom row (raster rows run down, canvas rows too). */
  lemma PadOffsetInCanvas(p: Pyramid, tx: int, ty: int)
    requires InGrid(p, TileKey(p.z, tx, ty))
    ensures var w, o := BaseWindow(p, tx, ty), PadOffset(p, tx, ty);
      && o.x == 0 && 0 <= o.y
      && o.x + w.width <= TILE_SIZE && o.y + w.height == TILE_SIZE
  {
    BaseWindowInRaster(p, tx, ty);
  }

  /** As written, every padded tile of a readable raster loses its pixels:
      the blank canvas is stored where the intended tile holds the window. */
  lemma PaddingLost(ds: Dataset, p: Pyramid, tx: int, ty: int)
    requires ds.rasterCount == 3 || ds.rasterCount == 4
    requires NeedsPadding(p, tx, ty)
    ensures BaseImageAsWritten(Some(ds), p, tx, ty) == Ok(Blank)
    ensures BaseImage(Some(ds), p, tx, ty).Ok? && BaseImage(Some(ds), p, tx, ty).value.Padded?
    ensures BaseImageAsWritten(Some(ds), p, tx, ty) != BaseImage(Some(ds), p, tx, ty)
  {
  }

  /** A concrete instance: a 300 x 256 raster at one level has a second base
      tile only 44 pixels wide, which needs padding. */
  lemma PaddingLostExample(ds: Dataset)
    requires ds.rasterCount == 4
    ensures InGrid(Pyramid(0, 300, 256), TileKey(0, 1, 0))
    ensures BaseWindow(Pyramid(0, 300, 256), 1, 0) == Window(256, 0, 44, 256)
    ensures BaseImageAsWritten(Some(ds), Pyramid(0, 300, 256), 1, 0) == Ok(Blank)
    ensures PasteOffsetAsWritten(Pyramid(0, 300, 256), 0) == Offset(0, TILE_SIZE)
    ensures BaseImage(Some(ds), Pyramid(0, 300, 256), 1, 0) ==
      Ok(Padded(Pixels(RGBA, 44, 256, Interleave(ds.readRaster(256, 0, 44, 256), 44, 256)), Offset(0, 0)))
  {
    var p := Pyramid(0, 300, 256);
    assert TileSpan(p, 0) == TILE_SIZE;
    CeilDivUnique(300, TILE_SIZE, 2);
    CeilDivUnique(256, TILE_SIZE, 1);
    assert TileTop(p, 0) == 0;
    assert NeedsPadding(p, 1, 0);
  }
}
