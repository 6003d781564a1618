/** Shared vocabulary of the MBTiles pyramid builder: tile keys, the opaque
    images and encoded blobs stored in the `tiles` table, the raster source,
    and the errors the builder can raise. */
module MbTypes {

  /** Edge length of every tile, in pixels (`TILE_SIZE`). */
  const TILE_SIZE: nat := 256

  /** Image format written into the `format` metadata row when the caller gives none. */
  const DEFAULT_FORMAT: string := "PNG"

  newtype byte = x: int | 0 <= x < 256

  /** A unique key of the `tiles` table: (zoom_level, tile_column, tile_row).
      Rows follow the TMS convention: row 0 is the bottom row of a level. */
  datatype TileKey = TileKey(level: int, col: int, row: int)

  /** Pixel position at which a child tile is pasted onto the 2x2 canvas. */
  datatype Offset = Offset(x: int, y: int)

  /** PIL image modes the raster reader produces. */
  datatype Mode = RGB | RGBA

  /** Images are opaque: a term records how the image was made, not its pixels.
      - Blank: the fully transparent RGBA canvas of one tile;
      - Pixels: `Image.frombytes(mode, (width, height), data)`;
      - Thumbnail: a transparent 2x2-tile canvas with `parts` pasted at their
        offsets, then shrunk to one tile;
      - Padded: the transparent canvas of one tile with `part` pasted at `at`. */
  datatype Image =
    | Blank
    | Pixels(mode: Mode, width: int, height: int, data: seq<byte>)
    | Thumbnail(parts: map<Offset, Blob>)
    | Padded(part: Image, at: Offset)

  /** The encoded bytes of an image saved in the store's `format`. */
  datatype Blob = Encoded(format: string, image: Image)

  /** An opened raster: its band count and its `ReadRaster(x, y, w, h)`, which
      returns the window band-sequentially (all of band 1, then band 2, ...). */
  datatype Dataset = Dataset(rasterCount: int, readRaster: (int, int, int, int) -> seq<byte>)

  datatype Error =
    | MetadataNotFound(name: string)   // `fetchone()` / `.next()` found no metadata row
    | DuplicateTile(key: TileKey)      // the unique index on (zoom_level, tile_column, tile_row)
    | DuplicateMetadata(name: string)  // the unique index on metadata(name)
    | Conflict                         // a bulk copy of rows hit the unique index on tiles
    | NoSource                         // "No GDAL source supplied"
    | UnsupportedBands(count: int)     // "Number of bands not supported"
    | Exhausted                        // StopIteration: no tile left to build
    | NoTiles                          // MAX(zoom_level) of an empty table is NULL
    | NoLevels                         // `range(num_levels, -1, -1)` is empty
    | SqlSyntax                        // a statement SQLite cannot parse
    | FormatArguments                  // a `%` format given the wrong arguments
    | UndefinedName(name: string)      // a name the module never imports

  datatype Result<T> = Ok(value: T) | Err(error: Error) {
    predicate IsFailure() { Err? }
    function PropagateFailure<U>(): Result<U>
      requires Err?
    {
      Err(error)
    }
    function Extract(): T
      requires Ok?
    {
      value
    }
  }

  datatype Outcome = Pass | Fail(error: Error)

  /** A store's tile table after an operation, with how the operation ended. */
  datatype Built = Built(tiles: map<TileKey, Blob>, outcome: Outcome)

  datatype Option<T> = None | Some(value: T)
}
