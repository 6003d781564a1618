/** `resume` in gdal2mbt.py: the tiles of every level are visited in the
    `tile_coords` order, the longest prefix already in the store is skipped
    (`dropwhile` with `_tile_exists`) and every remaining tile is made by
    `create_tile`, which inserts it and commits. */
module PyramidBuild {
  import opened MbTypes
  import opened Arith
  import opened TileGrid
  import opened TileOrder
  import opened RasterWindow
  import opened QuadTiles
  import opened MbStore

  /** What `create_tile` works from once `resume` has read the store: the
      pyramid (Z = num_levels and the raster size), the value of the `format`
      metadata row and the raster (None when resuming without one). */
  datatype Job = Job(p: Pyramid, format: string, source: Option<Dataset>)

  /** A raster whose base tiles can be read: present, with 3 or 4 bands. */
  predicate SourceReady(job: Job) {
    job.source.Some? && (job.source.value.rasterCount == 3 || job.source.value.rasterCount == 4)
  }

  /** The image `create_tile` makes for k: read from the raster at the base
      level Z by `get_gdal_tile` as written (a tile that needs padding is the
      blank canvas), assembled from the stored children at every other level. */
  function TileImage(job: Job, tiles: map<TileKey, Blob>, k: TileKey): Result<Image> {
    if k.level == job.p.z then BaseImageAsWritten(job.source, job.p, k.col, k.row)
    else Ok(Thumbnail(QuadParts(tiles, k.level, k.col, k.row)))
  }

  /** `create_tile`: the image is made, saved in the store's format and
      inserted under k. Failing to make the image, or finding k already
      stored, fails the step and leaves the table as it was. */
  function Step(job: Job, tiles: map<TileKey, Blob>, k: TileKey): (r: Result<map<TileKey, Blob>>)
    ensures r.Ok? ==> k !in tiles && r.value.Keys == tiles.Keys + {k} && r.value[k].format == job.format
    ensures r.Ok? ==> forall j :: j in tiles ==> r.value[j] == tiles[j]
    ensures TileImage(job, tiles, k).Ok? ==> (r.Err? <==> k in tiles)
    ensures TileImage(job, tiles, k).Err? ==> r == Err(TileImage(job, tiles, k).error)
  {
    var img :- TileImage(job, tiles, k);
    if k in tiles then Err(DuplicateTile(k)) else Ok(tiles[k := Encoded(job.format, img)])
  }

  /** The table after `create_tile` has run on each of keys in turn, stopping
      at the first failure (every successful step has been committed). */
  function Run(job: Job, tiles: map<TileKey, Blob>, keys: seq<TileKey>): Built
    decreases |keys|
  {
    if keys == [] then Built(tiles, Pass)
    else match Step(job, tiles, keys[0])
      case Err(e) => Built(tiles, Fail(e))
      case Ok(next) => Run(job, next, keys[1..])
  }

  /** Running a + b is running a and then, if that passed, b. */
  lemma {:induction false} RunSplit(job: Job, tiles: map<TileKey, Blob>, a: seq<TileKey>, b: seq<TileKey>)
    ensures var first := Run(job, tiles, a);
      Run(job, tiles, a + b) == if first.outcome.Pass? then Run(job, first.tiles, b) else first
    decreases |a|
  {
    if a == [] {
      assert a + b == b;
    } else {
      assert (a + b)[0] == a[0] && (a + b)[1..] == a[1..] + b;
      match Step(job, tiles, a[0])
      case Err(e) =>
      case Ok(next) => RunSplit(job, next, a[1..], b);
    }
  }

  /** A run never changes or removes a stored row and adds only rows for the
      keys it visits; when it passes, every visited key is stored, none of
      them was stored before and none was visited twice. */
  lemma {:induction false} RunRows(job: Job, tiles: map<TileKey, Blob>, keys: seq<TileKey>)
    ensures var r := Run(job, tiles, keys);
      && (forall k :: k in tiles ==> k in r.tiles && r.tiles[k] == tiles[k])
      && (forall k :: k in r.tiles ==> k in tiles || k in keys)
    ensures var r := Run(job, tiles, keys);
      r.outcome.Pass? ==>
        && (forall k :: k in keys ==> k in r.tiles && k !in tiles)
        && (forall i, j :: 0 <= i < j < |keys| ==> keys[i] != keys[j])
    decreases |keys|
  {
    if keys != [] {
      match Step(job, tiles, keys[0])
      case Err(e) =>
      case Ok(next) =>
        RunRows(job, next, keys[1..]);
        var r := Run(job, tiles, keys);
        if r.outcome.Pass? {
          assert keys[0] !in keys[1..];
          DistinctCons(keys);
          forall k | k in keys
            ensures k !in tiles
          {
            if k != keys[0] {
              assert k in keys[1..];
            }
          }
        }
    }
  }

  /** A key followed by distinct keys that do not include it are distinct keys. */
  lemma DistinctCons(keys: seq<TileKey>)
    requires keys != [] && keys[0] !in keys[1..]
    requires forall i, j :: 0 <= i < j < |keys[1..]| ==> keys[1..][i] != keys[1..][j]
    ensures forall i, j :: 0 <= i < j < |keys| ==> keys[i] != keys[j]
  {
    forall i, j | 0 <= i < j < |keys|
      ensures keys[i] != keys[j]
    {
      assert keys[j] == keys[1..][j - 1];
      if i > 0 {
        assert keys[i] == keys[1..][i - 1];
      }
    }
  }

  /** `dropwhile(_tile_exists, tile_coords)`: how many keys at the front of
      keys are already stored. */
  function PresentPrefix(tiles: map<TileKey, Blob>, keys: seq<TileKey>): (n: nat)
    ensures n <= |keys|
    ensures forall i :: 0 <= i < n ==> keys[i] in tiles
    ensures n < |keys| ==> keys[n] !in tiles
    decreases |keys|
  {
    if keys == [] || keys[0] !in tiles then 0 else 1 + PresentPrefix(tiles, keys[1..])
  }

  /** The prefix is the only index with those two properties. */
  lemma PresentPrefixUnique(tiles: map<TileKey, Blob>, keys: seq<TileKey>, m: nat)
    requires m <= |keys|
    requires forall i :: 0 <= i < m ==> keys[i] in tiles
    requires m < |keys| ==> keys[m] !in tiles
    ensures PresentPrefix(tiles, keys) == m
  {
  }

  /** The metadata rows `resume` reads before it builds anything. */
  predicate MetadataReady(meta: map<string, string>) {
    "format" in meta && "srs" in meta && "resolution" in meta && "bounds" in meta
  }

  function ResumeJob(numLevels: nat, width: nat, height: nat, source: Option<Dataset>, meta: map<string, string>): Job
    requires "format" in meta
  {
    Job(Pyramid(numLevels, width, height), meta["format"], source)
  }

  /** `resume(num_levels, db, source, sub_bounds)` on a store with metadata
      `meta` and tile table `tiles`. The `format` row is read first, then the
      extent rows `srs`, `resolution` and `bounds`; a negative num_levels
      leaves `levels` empty and `levels[0]` fails. When every enumerated key
      is stored, `.next()` raises StopIteration; otherwise the first missing
      key and all keys after it are created. */
  function ResumeSpec(numLevels: int, width: nat, height: nat, sub: SubBounds, source: Option<Dataset>,
                      meta: map<string, string>, tiles: map<TileKey, Blob>): Built
  {
    if "format" !in meta then Built(tiles, Fail(MetadataNotFound("format")))
    else if "srs" !in meta then Built(tiles, Fail(MetadataNotFound("srs")))
    else if "resolution" !in meta then Built(tiles, Fail(MetadataNotFound("resolution")))
    else if "bounds" !in meta then Built(tiles, Fail(MetadataNotFound("bounds")))
    else if numLevels < 0 then Built(tiles, Fail(NoLevels))
    else
      var job := ResumeJob(numLevels, width, height, source, meta);
      var keys := TileCoords(job.p, sub);
      var n := PresentPrefix(tiles, keys);
      if n == |keys| then Built(tiles, Fail(Exhausted)) else Run(job, tiles, keys[n..])
  }

  /** `create_tile` on an open store: on success the row is inserted and
      committed; on failure nothing is inserted and nothing committed. */
  method CreateTile(db: MBTiles, job: Job, k: TileKey) returns (outcome: Outcome)
    modifies db
    ensures match Step(job, old(db.tiles), k)
      case Ok(t) => (outcome == Pass && db.tiles == t && db.savedTiles == t && db.savedMetadata == db.metadata)
      case Err(e) => (outcome == Fail(e) && db.tiles == old(db.tiles)
                      && db.savedTiles == old(db.savedTiles) && db.savedMetadata == old(db.savedMetadata))
    ensures db.metadata == old(db.metadata)
  {
    var img: Image;
    if k.level == job.p.z {
      var r := BaseImageAsWritten(job.source, job.p, k.col, k.row);
      if r.Err? {
        return Fail(r.error);
      }
      img := r.value;
    } else {
      img := db.QuadImage(k.level, k.col, k.row);
    }
    outcome := db.InsertTile(k, Encoded(job.format, img));
    if outcome.Pass? {
      db.Commit();
    }
  }

  /** `resume` on an open store. Its table ends as `ResumeSpec` says, and
      either nothing was created, or the table ends committed. */
  method Resume(db: MBTiles, numLevels: int, width: nat, height: nat, sub: SubBounds, source: Option<Dataset>)
    returns (outcome: Outcome)
    modifies db
    ensures Built(db.tiles, outcome) == ResumeSpec(numLevels, width, height, sub, source, old(db.metadata), old(db.tiles))
    ensures db.metadata == old(db.metadata)
    ensures (db.tiles == old(db.tiles) && db.savedTiles == old(db.savedTiles) && db.savedMetadata == old(db.savedMetadata))
      || (db.savedTiles == db.tiles && db.savedMetadata == db.metadata)
  {
    var format := db.ReadMetadata("format");
    if format.Err? {
      return Fail(format.error);
    }
    var srs := db.ReadMetadata("srs");
    if srs.Err? {
      return Fail(srs.error);
    }
    var resolution := db.ReadMetadata("resolution");
    if resolution.Err? {
      return Fail(resolution.error);
    }
    var bounds := db.ReadMetadata("bounds");
    if bounds.Err? {
      return Fail(bounds.error);
    }
    if numLevels < 0 {
      return Fail(NoLevels);
    }
    var job := Job(Pyramid(numLevels, width, height), format.value, source);
    var keys := TileCoords(job.p, sub);
    var i := 0;
    while i < |keys|
      invariant i <= |keys|
      invariant forall j :: 0 <= j < i ==> keys[j] in db.tiles
      invariant unchanged(db)
    {
      var present := db.TileExists(keys[i]);
      if !present {
        break;
      }
      i := i + 1;
    }
    PresentPrefixUnique(db.tiles, keys, i);
    if i == |keys| {
      return Fail(Exhausted);
    }
    outcome := CreateFrom(db, job, keys, i);
  }

  /** The `for coord in tile_coords` loop, with the first missing key: every
      key from index i on is created in turn until one fails. */
  method CreateFrom(db: MBTiles, job: Job, keys: seq<TileKey>, i: nat) returns (outcome: Outcome)
    requires i < |keys|
    modifies db
    ensures Built(db.tiles, outcome) == Run(job, old(db.tiles), keys[i..])
    ensures db.metadata == old(db.metadata)
    ensures (db.tiles == old(db.tiles) && db.savedTiles == old(db.savedTiles) && db.savedMetadata == old(db.savedMetadata))
      || (db.savedTiles == db.tiles && db.savedMetadata == db.metadata)
  {
    var j := i;
    outcome := Pass;
    ghost var goal := Run(job, db.tiles, keys[i..]);
    while j < |keys|
      invariant i <= j <= |keys|
      invariant goal == Run(job, db.tiles, keys[j..])
      invariant db.metadata == old(db.metadata)
      invariant j == i ==>
        db.tiles == old(db.tiles) && db.savedTiles == old(db.savedTiles) && db.savedMetadata == old(db.savedMetadata)
      invariant j > i ==> db.savedTiles == db.tiles && db.savedMetadata == db.metadata
      invariant outcome == Pass
    {
      outcome := CreateNext(db, job, keys, j, goal);
      if outcome.Fail? {
        return;
      }
      j := j + 1;
    }
  }

  /** One turn of the loop: the tile of key j is created and committed, and
      the run `goal` from key j on goes on from j + 1, or stops here. */
  method CreateNext(db: MBTiles, job: Job, keys: seq<TileKey>, j: nat, ghost goal: Built) returns (outcome: Outcome)
    requires j < |keys| && goal == Run(job, db.tiles, keys[j..])
    modifies db
    ensures outcome.Pass? ==> goal == Run(job, db.tiles, keys[j + 1..])
    ensures outcome.Fail? ==> goal == Built(db.tiles, outcome)
    ensures db.metadata == old(db.metadata)
    ensures outcome.Pass? ==> db.savedTiles == db.tiles && db.savedMetadata == db.metadata
    ensures outcome.Fail? ==>
      db.tiles == old(db.tiles) && db.savedTiles == old(db.savedTiles) && db.savedMetadata == old(db.savedMetadata)
  {
    ghost var before := db.tiles;
    outcome := CreateTile(db, job, keys[j]);
    if outcome.Fail? {
      RunFails(job, before, keys, j);
    } else {
      RunPasses(job, before, keys, j);
    }
  }

  /** A run from index j whose first step fails stops there. */
  lemma RunFails(job: Job, tiles: map<TileKey, Blob>, keys: seq<TileKey>, j: nat)
    requires j < |keys| && Step(job, tiles, keys[j]).Err?
    ensures Run(job, tiles, keys[j..]) == Built(tiles, Fail(Step(job, tiles, keys[j]).error))
  {
    assert keys[j..][0] == keys[j];
  }

  /** A run from index j whose first step passes goes on from j + 1. */
  lemma RunPasses(job: Job, tiles: map<TileKey, Blob>, keys: seq<TileKey>, j: nat)
    requires j < |keys| && Step(job, tiles, keys[j]).Ok?
    ensures Run(job, tiles, keys[j..]) == Run(job, Step(job, tiles, keys[j]).value, keys[j + 1..])
  {
    assert keys[j..][0] == keys[j] && keys[j..][1..] == keys[j + 1..];
  }

  /** Resuming after an interruption finishes the same build: if a run over
      the enumerated keys, starting from a table holding none of them,
      committed its first m tiles and then stopped (killed, or failed on tile
      m), `resume` on the committed table ends exactly as the uninterrupted
      run does; after a complete run it raises StopIteration instead. */
  lemma ResumeAfterInterruption(job: Job, sub: SubBounds, meta: map<string, string>, t0: map<TileKey, Blob>, m: nat)
    requires MetadataReady(meta) && meta["format"] == job.format
    requires var keys := TileCoords(job.p, sub);
      && m <= |keys| && (forall k :: k in keys ==> k !in t0)
      && Run(job, t0, keys[..m]).outcome.Pass?
    ensures var keys := TileCoords(job.p, sub);
      var t1 := Run(job, t0, keys[..m]).tiles;
      ResumeSpec(job.p.z, job.p.width, job.p.height, sub, job.source, meta, t1) ==
        if m == |keys| then Built(t1, Fail(Exhausted)) else Run(job, t0, keys)
  {
    var keys := TileCoords(job.p, sub);
    assert ResumeJob(job.p.z, job.p.width, job.p.height, job.source, meta) == job;
    TileCoordsDistinct(job.p, sub);
    ContinueRun(job, t0, keys, m);
  }

  /** The run from the first key a passing run over the first m keys left
      missing is the rest of the whole run. */
  lemma ContinueRun(job: Job, t0: map<TileKey, Blob>, keys: seq<TileKey>, m: nat)
    requires m <= |keys| && forall k :: k in keys ==> k !in t0
    requires forall i, j :: 0 <= i < |keys| && 0 <= j < |keys| && i != j ==> keys[i] != keys[j]
    requires Run(job, t0, keys[..m]).outcome.Pass?
    ensures var t1 := Run(job, t0, keys[..m]).tiles;
      && PresentPrefix(t1, keys) == m
      && (m < |keys| ==> Run(job, t1, keys[m..]) == Run(job, t0, keys))
  {
    PrefixAfterRun(job, t0, keys, m);
    if m < |keys| {
      RunSplit(job, t0, keys[..m], keys[m..]);
      SplitAt(keys, m);
    }
  }

  lemma SplitAt(keys: seq<TileKey>, m: nat)
    requires m <= |keys|
    ensures keys[..m] + keys[m..] == keys
  {
  }

  /** A run from the first missing key that passes leaves stored exactly the
      keys stored before and the enumerated ones. */
  lemma ResumedKeys(job: Job, tiles: map<TileKey, Blob>, keys: seq<TileKey>, n: nat, k: TileKey)
    requires n == PresentPrefix(tiles, keys)
    ensures var r := Run(job, tiles, keys[n..]);
      r.outcome.Pass? ==> (k in r.tiles <==> k in tiles || k in keys)
  {
    RunRows(job, tiles, keys[n..]);
    MissingFromPrefix(tiles, keys, n, k);
  }

  /** The keys from the first missing one on are the enumerated keys that
      are not stored, and possibly some that are. */
  lemma MissingFromPrefix(tiles: map<TileKey, Blob>, keys: seq<TileKey>, n: nat, k: TileKey)
    requires n == PresentPrefix(tiles, keys)
    ensures k in keys[n..] ==> k in keys
    ensures k in keys && k !in tiles ==> k in keys[n..]
  {
    SplitAt(keys, n);
    if k in keys[..n] {
      var i :| 0 <= i < n && keys[..n][i] == k;
      assert keys[i] == k;
    }
  }

  /** After a passing run over the first m of distinct keys, none of which
      was stored before, the stored prefix is exactly those m keys. */
  lemma PrefixAfterRun(job: Job, t0: map<TileKey, Blob>, keys: seq<TileKey>, m: nat)
    requires m <= |keys| && forall k :: k in keys ==> k !in t0
    requires forall i, j :: 0 <= i < |keys| && 0 <= j < |keys| && i != j ==> keys[i] != keys[j]
    requires Run(job, t0, keys[..m]).outcome.Pass?
    ensures PresentPrefix(Run(job, t0, keys[..m]).tiles, keys) == m
  {
    var t1 := Run(job, t0, keys[..m]).tiles;
    RunRows(job, t0, keys[..m]);
    forall i | 0 <= i < m
      ensures keys[i] in t1
    {
      assert keys[i] in keys[..m];
    }
    if m < |keys| {
      assert keys[m] in keys;
      forall i | 0 <= i < m
        ensures keys[..m][i] != keys[m]
      {
        assert keys[..m][i] == keys[i];
      }
      assert keys[m] !in keys[..m];
    }
    PresentPrefixUnique(t1, keys, m);
  }

  // The finished pyramid

  /** A visiting order in which a tile can be built from what is already
      stored: no key twice, every key in its level's grid, and every child in
      the grid of a tile above the base level visited before the tile. */
  ghost predicate BuildOrder(p: Pyramid, keys: seq<TileKey>) {
    && (forall i, j :: 0 <= i < j < |keys| ==> keys[i] != keys[j])
    && (forall k :: k in keys ==> InGrid(p, k))
    && (forall i, c ::
          (0 <= i < |keys| && keys[i].level < p.z && InGrid(p, c)
           && c in ChildKeys(keys[i].level, keys[i].col, keys[i].row)) ==> c in keys[..i])
  }

  /** The blob a tile of the finished pyramid holds, defined by the pyramid
      alone: a base tile is what `get_gdal_tile` makes of its raster window
      (the blank canvas when it needs padding), a tile above is the thumbnail
      of its children that lie in the grid. */
  function CanonicalBlob(job: Job, k: TileKey): Blob
    requires SourceReady(job) && k.level <= job.p.z
    decreases job.p.z - k.level, 1
  {
    if k.level == job.p.z then Encoded(job.format, BaseImageAsWritten(job.source, job.p, k.col, k.row).value)
    else Encoded(job.format, Thumbnail(QuadParts(CanonicalChildren(job, k), k.level, k.col, k.row)))
  }

  function CanonicalChildren(job: Job, k: TileKey): map<TileKey, Blob>
    requires SourceReady(job) && k.level < job.p.z
    decreases job.p.z - k.level, 0
  {
    map c | c in ChildKeys(k.level, k.col, k.row) && InGrid(job.p, c) :: CanonicalBlob(job, c)
  }

  /** The finished table for the keys visited. */
  function CanonicalStore(job: Job, keys: seq<TileKey>): map<TileKey, Blob>
    requires SourceReady(job) && forall k :: k in keys ==> InGrid(job.p, k)
  {
    map k | k in keys :: assert InGrid(job.p, k); CanonicalBlob(job, k)
  }

  /** Building tile i of a build order on the canonical table of the keys
      before it yields the canonical table of the keys up to it. */
  lemma StepCanonical(job: Job, keys: seq<TileKey>, i: nat)
    requires SourceReady(job) && BuildOrder(job.p, keys) && i < |keys|
    ensures Step(job, CanonicalStore(job, keys[..i]), keys[i]) == Ok(CanonicalStore(job, keys[..i + 1]))
  {
    var t := CanonicalStore(job, keys[..i]);
    var k := keys[i];
    assert InGrid(job.p, k);
    forall j | 0 <= j < i
      ensures keys[..i][j] != k
    {
      assert keys[..i][j] == keys[j];
    }
    assert k !in keys[..i];
    if k.level != job.p.z {
      ChildrenBuilt(job, keys, i);
    }
    StoreGrows(job, keys, i);
  }

  /** When a tile above the base level is built, the stored children it reads
      are exactly its canonical children. */
  lemma ChildrenBuilt(job: Job, keys: seq<TileKey>, i: nat)
    requires SourceReady(job) && BuildOrder(job.p, keys) && i < |keys| && keys[i].level < job.p.z
    ensures var k := keys[i];
      QuadParts(CanonicalStore(job, keys[..i]), k.level, k.col, k.row)
        == QuadParts(CanonicalChildren(job, k), k.level, k.col, k.row)
  {
    var t := CanonicalStore(job, keys[..i]);
    var k := keys[i];
    var cs := CanonicalChildren(job, k);
    forall c | c in ChildKeys(k.level, k.col, k.row)
      ensures c in t <==> c in cs
      ensures c in t ==> t[c] == cs[c]
    {
      if InGrid(job.p, c) {
        assert c in keys[..i];
      }
    }
    QuadReadsOnlyChildren(t, cs, k.level, k.col, k.row);
  }

  lemma StoreGrows(job: Job, keys: seq<TileKey>, i: nat)
    requires SourceReady(job) && BuildOrder(job.p, keys) && i < |keys|
    ensures keys[i] in keys && InGrid(job.p, keys[i])
    ensures CanonicalStore(job, keys[..i])[keys[i] := CanonicalBlob(job, keys[i])] == CanonicalStore(job, keys[..i + 1])
  {
    assert keys[..i + 1] == keys[..i] + [keys[i]];
  }

  lemma {:induction false} BuildRest(job: Job, keys: seq<TileKey>, i: nat)
    requires SourceReady(job) && BuildOrder(job.p, keys) && i <= |keys|
    ensures Run(job, CanonicalStore(job, keys[..i]), keys[i..]) == Built(CanonicalStore(job, keys), Pass)
    decreases |keys| - i
  {
    if i == |keys| {
      assert keys[..i] == keys;
    } else {
      StepCanonical(job, keys, i);
      assert keys[i..][0] == keys[i] && keys[i..][1..] == keys[i + 1..];
      BuildRest(job, keys, i + 1);
    }
  }

  /** Building a whole build order on an empty table passes and yields the
      canonical pyramid: the result does not depend on the order beyond its
      being a build order. */
  lemma BuildFromScratch(job: Job, keys: seq<TileKey>)
    requires SourceReady(job) && BuildOrder(job.p, keys)
    ensures Run(job, map[], keys) == Built(CanonicalStore(job, keys), Pass)
  {
    BuildRest(job, keys, 0);
    assert keys[..0] == [] && keys[0..] == keys;
    assert CanonicalStore(job, []) == map[];
  }

  // Which sub-bounds enumerate a build order

  /** Sub-bounds whose left and bottom edges lie on level-0 tile boundaries,
      multiples of 2^Z base tiles: the default (0, 0, inf, inf) and the
      chunks of `split` when they are built with the same num_levels. */
  predicate Aligned(p: Pyramid, sub: SubBounds) {
    sub.left % Pow2(p.z) == 0 && sub.bottom % Pow2(p.z) == 0
  }

  /** An aligned left (or bottom) edge that a tile x of `level` passes also
      lets its children 2x and 2x + 1 through. */
  lemma AlignedEdge(e: int, z: nat, level: nat, x: int, c: int)
    requires level < z && e % Pow2(z) == 0
    requires e < (x + 1) * Pow2(z - level) && c / 2 == x
    ensures e < (c + 1) * Pow2(z - (level + 1))
  {
    var g := Pow2(z - (level + 1));
    assert Pow2(z - level) == 2 * g;
    Pow2Add(level, z - level);
    EdgeArith(e, e / Pow2(z), Pow2(level), g, x, c);
  }

  lemma EdgeArith(e: int, q: int, a: nat, g: nat, x: int, c: int)
    requires a > 0 && g > 0 && e == q * (a * (2 * g))
    requires e < (x + 1) * (2 * g) && c / 2 == x
    ensures e < (c + 1) * g
  {
    var m := q * a;
    assert e == (2 * m) * g;
    assert (x + 1) * (2 * g) == (2 * x + 2) * g;
    if 2 * m >= 2 * x + 2 {
      MulLe(2 * x + 2, 2 * m, g);
    }
    MulLe(2 * m, c, g);
  }

  /** A right (or top) bound that tile x of `level` stays within also holds
      its children 2x and 2x + 1. */
  lemma WithinChild(b: Bound, z: nat, level: nat, x: int, c: int)
    requires level < z && Within((x + 1) * Pow2(z - level), b) && c / 2 == x
    ensures Within((c + 1) * Pow2(z - (level + 1)), b)
  {
    var g := Pow2(z - (level + 1));
    assert Pow2(z - level) == 2 * g;
    MulLe(c + 1, 2 * x + 2, g);
    assert (x + 1) * (2 * g) == (2 * x + 2) * g;
  }

  /** With aligned sub-bounds, every child in the grid of an enumerated tile
      is enumerated too. */
  lemma ChildEnumerated(p: Pyramid, sub: SubBounds, k: TileKey, c: TileKey)
    requires Aligned(p, sub) && k in TileCoords(p, sub) && k.level < p.z
    requires c in ChildKeys(k.level, k.col, k.row) && InGrid(p, c)
    ensures c in TileCoords(p, sub)
  {
    TileCoordsMembership(p, sub, k);
    ChildKeysAreChildren(k.level, k.col, k.row, c);
    ChildInSub(p, sub, k, c);
    TileCoordsMembership(p, sub, c);
  }

  /** A grid child of a tile inside aligned sub-bounds is inside them too. */
  lemma ChildInSub(p: Pyramid, sub: SubBounds, k: TileKey, c: TileKey)
    requires Aligned(p, sub) && 0 <= k.level < p.z && InRect(LevelSub(p, sub, k.level), k.col, k.row)
    requires c.level == k.level + 1 && c.col / 2 == k.col && c.row / 2 == k.row && InGrid(p, c)
    ensures InRect(LevelSub(p, sub, c.level), c.col, c.row)
  {
    LevelSubMembership(p, sub, k.level, k.col, k.row);
    AxisChild(sub.left, sub.right, p.z, k.level, k.col, c.col);
    AxisChild(sub.bottom, sub.top, p.z, k.level, k.row, c.row);
    LevelSubMembership(p, sub, c.level, c.col, c.row);
  }

  /** Along one axis: the child tiles 2x and 2x + 1 pass an aligned lower
      edge and an upper bound that tile x passes. */
  lemma AxisChild(lo: int, hi: Bound, z: nat, level: nat, x: int, c: int)
    requires level < z && lo % Pow2(z) == 0 && c / 2 == x
    requires lo < (x + 1) * Pow2(z - level) && Within((x + 1) * Pow2(z - level), hi)
    ensures lo < (c + 1) * Pow2(z - (level + 1)) && Within((c + 1) * Pow2(z - (level + 1)), hi)
  {
    AlignedEdge(lo, z, level, x, c);
    WithinChild(hi, z, level, x, c);
  }

  /** Aligned sub-bounds enumerate a build order: `tile_coords` visits a
      tile's children before the tile. */
  lemma TileCoordsBuildOrder(p: Pyramid, sub: SubBounds)
    requires Aligned(p, sub)
    ensures BuildOrder(p, TileCoords(p, sub))
  {
    var keys := TileCoords(p, sub);
    TileCoordsDistinct(p, sub);
    forall k | k in keys
      ensures InGrid(p, k)
    {
      TileCoordsInGrid(p, sub, k);
    }
    forall i, c | 0 <= i < |keys| && keys[i].level < p.z && InGrid(p, c)
                  && c in ChildKeys(keys[i].level, keys[i].col, keys[i].row)
      ensures c in keys[..i]
    {
      ChildEnumerated(p, sub, keys[i], c);
      var j :| 0 <= j < |keys| && keys[j] == c;
      ChildKeysAreChildren(keys[i].level, keys[i].col, keys[i].row, c);
      FinerFirst(p, sub, j, i);
      assert keys[..i][j] == c;
    }
  }

  /** `create` on a fresh store: with a readable raster and aligned
      sub-bounds, `resume` on the empty table builds the canonical pyramid of
      the enumerated tiles, or raises StopIteration when there are none. */
  lemma FreshBuild(job: Job, sub: SubBounds, meta: map<string, string>)
    requires MetadataReady(meta) && meta["format"] == job.format
    requires SourceReady(job) && Aligned(job.p, sub)
    ensures forall k :: k in TileCoords(job.p, sub) ==> InGrid(job.p, k)
    ensures var keys := TileCoords(job.p, sub);
      ResumeSpec(job.p.z, job.p.width, job.p.height, sub, job.source, meta, map[]) ==
        if keys == [] then Built(map[], Fail(Exhausted)) else Built(CanonicalStore(job, keys), Pass)
  {
    var keys := TileCoords(job.p, sub);
    TileCoordsBuildOrder(job.p, sub);
    assert ResumeJob(job.p.z, job.p.width, job.p.height, job.source, meta) == job;
    PresentPrefixUnique(map[], keys, 0);
    if keys != [] {
      assert keys[0..] == keys;
      BuildFromScratch(job, keys);
    }
  }
}
