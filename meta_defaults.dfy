/** The metadata a new store is created with (`_get_metadata_from_gdal` in
    gdal2mbt.py, `_create_mbtiles_from_gdal` in gdal2mbtiles.py): the
    caller's dictionary is completed in place with a default for every
    standard key it lacks, and `create` then builds the store from it and
    runs `resume`. */
module MetaDefaults {
  import opened MbTypes
  import opened TileGrid
  import opened TileOrder
  import opened MbStore
  import opened PyramidBuild

  /** The names `default_metadata` gives a value to. */
  const DEFAULT_KEYS: set<string> :=
    {"name", "type", "version", "description", "format", "bounds", "srs", "resolution"}

  /** `default_metadata`. The bounds string (the raster's corners in WGS84),
      the PROJ.4 text of its spatial reference and its resolution come from
      GDAL and OSR and are given here as they would be written out. */
  function DefaultMetadata(bounds: string, srs: string, resolution: string): (r: map<string, string>)
    ensures r.Keys == DEFAULT_KEYS
    ensures MetadataReady(r) && r["format"] == DEFAULT_FORMAT
    ensures r["bounds"] == bounds && r["srs"] == srs && r["resolution"] == resolution
  {
    map["name" := "untitled", "type" := "overlay", "version" := "1", "description" := "",
        "format" := DEFAULT_FORMAT, "bounds" := bounds, "srs" := srs, "resolution" := resolution]
  }

  /** `meta` completed with `defaults`: a name the caller set keeps the
      caller's value, any other name with a default gets the default. */
  function WithDefaults(meta: map<string, string>, defaults: map<string, string>): (r: map<string, string>)
    ensures r.Keys == meta.Keys + defaults.Keys
    ensures forall k :: k in meta ==> r[k] == meta[k]
    ensures forall k :: k in defaults && k !in meta ==> r[k] == defaults[k]
  {
    map k | k in meta.Keys + defaults.Keys :: if k in meta then meta[k] else defaults[k]
  }

  /** Completing with defaults is the map union in which the caller's entries win. */
  lemma WithDefaultsIsUnion(meta: map<string, string>, defaults: map<string, string>)
    ensures WithDefaults(meta, defaults) == defaults + meta
  {
  }

  /** Completing twice changes nothing more. */
  lemma WithDefaultsIdempotent(meta: map<string, string>, defaults: map<string, string>)
    ensures WithDefaults(WithDefaults(meta, defaults), defaults) == WithDefaults(meta, defaults)
  {
  }

  /** Whatever the caller passes, the completed metadata has every default
      name, so the rows `resume` reads are all there; its format is the
      caller's when given and PNG otherwise. */
  lemma DefaultsComplete(meta: map<string, string>, bounds: string, srs: string, resolution: string)
    ensures var r := WithDefaults(meta, DefaultMetadata(bounds, srs, resolution));
      && DEFAULT_KEYS <= r.Keys
      && MetadataReady(r)
      && r["format"] == (if "format" in meta then meta["format"] else DEFAULT_FORMAT)
  {
  }

  /** A Python dict the caller owns and the builder fills in place. */
  class MetadataDict {
    var entries: map<string, string>

    constructor (entries: map<string, string>)
      ensures this.entries == entries
    {
      this.entries := entries;
    }

    /** `for k, v in default_metadata.iteritems(): if not metadata.has_key(k):
        metadata[k] = v`, in whatever order the dict yields its items. */
    method FillDefaults(defaults: map<string, string>)
      modifies this
      ensures entries == WithDefaults(old(entries), defaults)
    {
      var rest := defaults.Keys;
      while rest != {}
        invariant rest <= defaults.Keys
        invariant entries == WithDefaults(old(entries), map k | k in defaults.Keys - rest :: defaults[k])
        decreases rest
      {
        var k :| k in rest;
        if k !in entries {
          entries := entries[k := defaults[k]];
        }
        rest := rest - {k};
      }
      assert defaults.Keys - rest == defaults.Keys;
    }
  }

  /** `_get_metadata_from_gdal(ds, metadata)`: the caller's own dictionary is
      completed and handed back, so the caller sees the defaults too. */
  method GetMetadata(metadata: MetadataDict, bounds: string, srs: string, resolution: string)
    returns (r: MetadataDict)
    modifies metadata
    ensures r == metadata
    ensures r.entries == WithDefaults(old(metadata.entries), DefaultMetadata(bounds, srs, resolution))
  {
    metadata.FillDefaults(DefaultMetadata(bounds, srs, resolution));
    r := metadata;
  }

  /** `create(num_levels, mbtiles, source, sub_bounds, metadata)`: a new store
      holding the completed metadata, then `resume` with the raster. The
      raster size is what `resume` reads back from that metadata. The
      metadata and every created tile end committed. */
  method Create(numLevels: int, width: nat, height: nat, sub: SubBounds, ds: Dataset, metadata: MetadataDict,
                bounds: string, srs: string, resolution: string)
    returns (db: MBTiles, outcome: Outcome)
    modifies metadata
    ensures fresh(db)
    ensures metadata.entries == WithDefaults(old(metadata.entries), DefaultMetadata(bounds, srs, resolution))
    ensures db.metadata == metadata.entries
    ensures Built(db.tiles, outcome) == ResumeSpec(numLevels, width, height, sub, Some(ds), db.metadata, map[])
    ensures db.savedMetadata == db.metadata && db.savedTiles == db.tiles
  {
    var meta := GetMetadata(metadata, bounds, srs, resolution);
    db := new MBTiles(meta.entries);
    outcome := Resume(db, numLevels, width, height, sub, Some(ds));
  }

  /** `create` with a readable raster and aligned sub-bounds never stops for
      missing metadata: it builds the canonical pyramid of the enumerated
      tiles in the caller's format (PNG unless given), or raises
      StopIteration when there is no tile to build. */
  lemma CreateBuilds(p: Pyramid, sub: SubBounds, ds: Dataset, meta: map<string, string>,
                     bounds: string, srs: string, resolution: string)
    requires ds.rasterCount == 3 || ds.rasterCount == 4
    requires Aligned(p, sub)
    ensures forall k :: k in TileCoords(p, sub) ==> InGrid(p, k)
    ensures var m := WithDefaults(meta, DefaultMetadata(bounds, srs, resolution));
      var job := Job(p, if "format" in meta then meta["format"] else DEFAULT_FORMAT, Some(ds));
      var keys := TileCoords(p, sub);
      ResumeSpec(p.z, p.width, p.height, sub, Some(ds), m, map[]) ==
        if keys == [] then Built(map[], Fail(Exhausted)) else Built(CanonicalStore(job, keys), Pass)
  {
    var m := WithDefaults(meta, DefaultMetadata(bounds, srs, resolution));
    DefaultsComplete(meta, bounds, srs, resolution);
    var job := Job(p, m["format"], Some(ds));
    FreshBuild(job, sub, m);
  }

  // The shared default argument

  /** `_get_metadata_from_gdal` called without `metadata`, as written: the
      default `{}` is one dictionary created once, when the module is
      loaded, so every such call completes (and returns) that same
      dictionary. Returns the call's metadata, which is also the shared
      dictionary after the call. */
  function DefaultArgAsWritten(shared: map<string, string>, bounds: string, srs: string, resolution: string)
    : (r: map<string, string>)
    ensures forall k :: k in shared ==> k in r && r[k] == shared[k]
    ensures DEFAULT_KEYS <= r.Keys
  {
    WithDefaults(shared, DefaultMetadata(bounds, srs, resolution))
  }

  /** As written, a second store created without metadata gets the bounds,
      spatial reference and resolution of the first raster, whatever its own. */
  lemma DefaultArgLeaks(b1: string, s1: string, r1: string, b2: string, s2: string, r2: string)
    ensures var first := DefaultArgAsWritten(map[], b1, s1, r1);
      var second := DefaultArgAsWritten(first, b2, s2, r2);
      second["bounds"] == b1 && second["srs"] == s1 && second["resolution"] == r1
  {
  }

  /** The second raster's own bounds are lost whenever they differ from the first's. */
  lemma DefaultArgLeaksExample()
    ensures DefaultArgAsWritten(DefaultArgAsWritten(map[], "0,0,1,1", "+proj=longlat", "1"),
                                "5,5,6,6", "+proj=longlat", "1")["bounds"] != "5,5,6,6"
  {
    DefaultArgLeaks("0,0,1,1", "+proj=longlat", "1", "5,5,6,6", "+proj=longlat", "1");
  }

  /** The evidently intended behaviour: a call without metadata starts from a
      fresh empty dictionary. */
  function MetadataFor(given: Option<map<string, string>>, bounds: string, srs: string, resolution: string)
    : (r: map<string, string>)
    ensures given.None? ==> r == DefaultMetadata(bounds, srs, resolution)
    ensures given.Some? ==> r == WithDefaults(given.value, DefaultMetadata(bounds, srs, resolution))
  {
    WithDefaults(if given.Some? then given.value else map[], DefaultMetadata(bounds, srs, resolution))
  }

  /** Corrected, a store created without metadata describes its own raster,
      whatever was created before it. */
  lemma MetadataForOwnRaster(bounds: string, srs: string, resolution: string)
    ensures var r := MetadataFor(None, bounds, srs, resolution);
      r["bounds"] == bounds && r["srs"] == srs && r["resolution"] == resolution && r["format"] == DEFAULT_FORMAT
  {
  }
}
