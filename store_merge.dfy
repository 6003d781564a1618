/** `merge(out, *mbtiles)` and `_copy_table` in gdal2mbt.py: the tile tables
    of stores built for separate chunks are copied, one source after
    another, into an output store. */
module StoreMerge {
  import opened MbTypes
  import opened TileGrid
  import opened TileOrder
  import opened MbStore
  import opened PyramidBuild
  import opened SplitChunks

  /** The intended effect of `merge` on the output's tile table: each
      source's table is copied in turn by one INSERT ... SELECT, and the
      first copy that meets a key already present fails and ends the merge. */
  function MergeSpec(t: map<TileKey, Blob>, rows: seq<map<TileKey, Blob>>): Built
    decreases |rows|
  {
    if rows == [] then Built(t, Pass)
    else if t.Keys !! rows[0].Keys then MergeSpec(t + rows[0], rows[1..])
    else Built(t, Fail(Conflict))
  }

  /** No key is in two of the tables, nor in a table and the output. */
  predicate Disjoint(t: map<TileKey, Blob>, rows: seq<map<TileKey, Blob>>) {
    && (forall i :: 0 <= i < |rows| ==> t.Keys !! rows[i].Keys)
    && (forall i, j :: 0 <= i < j < |rows| ==> rows[i].Keys !! rows[j].Keys)
  }

  /** The merge succeeds exactly when the tables are disjoint, and it can
      only fail with a key conflict. */
  lemma {:induction false} MergeOutcome(t: map<TileKey, Blob>, rows: seq<map<TileKey, Blob>>)
    decreases |rows|
    ensures MergeSpec(t, rows).outcome == Pass <==> Disjoint(t, rows)
    ensures MergeSpec(t, rows).outcome in {Pass, Fail(Conflict)}
  {
    if rows != [] {
      var rest := rows[1..];
      if t.Keys !! rows[0].Keys {
        MergeOutcome(t + rows[0], rest);
        assert forall i :: 0 <= i < |rest| ==> rest[i] == rows[i + 1];
        if Disjoint(t + rows[0], rest) {
          forall i, j | 0 <= i < j < |rows|
            ensures rows[i].Keys !! rows[j].Keys
          {
            if i > 0 {
              assert rest[i - 1] == rows[i] && rest[j - 1] == rows[j];
            } else {
              assert rest[j - 1] == rows[j];
            }
          }
          forall i | 0 <= i < |rows|
            ensures t.Keys !! rows[i].Keys
          {
            if i > 0 {
              assert rest[i - 1] == rows[i];
            }
          }
        }
        if Disjoint(t, rows) {
          forall i | 0 <= i < |rest|
            ensures (t + rows[0]).Keys !! rest[i].Keys
          {
            assert rest[i] == rows[i + 1];
          }
        }
      }
    }
  }

  /** The merge never overwrites: every row the output holds survives it. */
  lemma {:induction false} MergeKeeps(t: map<TileKey, Blob>, rows: seq<map<TileKey, Blob>>)
    decreases |rows|
    ensures forall k :: k in t ==> k in MergeSpec(t, rows).tiles && MergeSpec(t, rows).tiles[k] == t[k]
  {
    if rows != [] && t.Keys !! rows[0].Keys {
      MergeKeeps(t + rows[0], rows[1..]);
    }
  }

  /** Every row the output ends with was in it before or comes from one of
      the tables, with that table's blob. */
  lemma {:induction false} MergeFrom(t: map<TileKey, Blob>, rows: seq<map<TileKey, Blob>>, k: TileKey)
    requires k in MergeSpec(t, rows).tiles && k !in t
    decreases |rows|
    ensures exists i :: 0 <= i < |rows| && k in rows[i] && MergeSpec(t, rows).tiles[k] == rows[i][k]
  {
    var r := MergeSpec(t, rows).tiles;
    var t1 := t + rows[0];
    if k in rows[0] {
      MergeKeeps(t1, rows[1..]);
      assert r[k] == rows[0][k];
    } else {
      MergeFrom(t1, rows[1..], k);
      var i :| 0 <= i < |rows[1..]| && k in rows[1..][i] && r[k] == rows[1..][i][k];
      assert rows[i + 1] == rows[1..][i];
    }
  }

  /** When the tables are disjoint, every row of every table is copied. */
  lemma {:induction false} MergeCopies(t: map<TileKey, Blob>, rows: seq<map<TileKey, Blob>>, i: nat, k: TileKey)
    requires Disjoint(t, rows) && i < |rows| && k in rows[i]
    decreases i
    ensures k in MergeSpec(t, rows).tiles && MergeSpec(t, rows).tiles[k] == rows[i][k]
  {
    var rest := rows[1..];
    var t1 := t + rows[0];
    assert t.Keys !! rows[0].Keys;
    if i == 0 {
      MergeKeeps(t1, rest);
    } else {
      forall j | 0 <= j < |rest|
        ensures t1.Keys !! rest[j].Keys
      {
        assert rest[j] == rows[j + 1];
      }
      assert rest[i - 1] == rows[i];
      MergeCopies(t1, rest, i - 1, k);
    }
  }

  /** The tile tables of the sources, in the order they are given. */
  function Tables(dbs: seq<MBTiles>): seq<map<TileKey, Blob>>
    reads dbs
  {
    seq(|dbs|, i requires 0 <= i < |dbs| reads dbs => dbs[i].tiles)
  }

  /** `merge(out, *mbtiles)` with `out` an open store, as intended: each
      source's tiles are copied by `CopyTiles`, stopping at the first
      conflict. With any source given, the store ends committed (each
      ATTACH and DETACH commits); with none, nothing is committed. */
  method Merge(out: MBTiles, sources: seq<MBTiles>) returns (outcome: Outcome)
    requires out !in sources
    modifies out
    ensures Built(out.tiles, outcome) == MergeSpec(old(out.tiles), Tables(sources))
    ensures out.metadata == old(out.metadata)
    ensures sources != [] ==> out.savedMetadata == out.metadata && out.savedTiles == out.tiles
    ensures sources == [] ==> out.savedMetadata == old(out.savedMetadata) && out.savedTiles == old(out.savedTiles)
  {
    ghost var rows := Tables(sources);
    outcome := Pass;
    var i := 0;
    while i < |sources|
      invariant 0 <= i <= |sources|
      invariant Tables(sources) == rows
      invariant MergeSpec(old(out.tiles), rows) == MergeSpec(out.tiles, rows[i..])
      invariant outcome == Pass
      invariant out.metadata == old(out.metadata)
      invariant i > 0 ==> out.savedMetadata == out.metadata && out.savedTiles == out.tiles
      invariant i == 0 ==> out.savedMetadata == old(out.savedMetadata) && out.savedTiles == old(out.savedTiles)
    {
      assert rows[i..][0] == sources[i].tiles && rows[i..][1..] == rows[i + 1..];
      outcome := out.CopyTiles(sources[i].tiles);
      if outcome.Fail? {
        return;
      }
      i := i + 1;
    }
    assert rows[i..] == [];
  }

  /** `merge` as written. An output given by name first reaches `isfile`,
      which the module never imports. Otherwise each source first reaches
      the log line of `_copy_table`, which formats a two-placeholder string
      with one value and raises before any statement runs. */
  function MergeAsWritten(outIsName: bool, t: map<TileKey, Blob>, rows: seq<map<TileKey, Blob>>): (r: Built)
    ensures r.tiles == t
    ensures r.outcome == Pass <==> !outIsName && rows == []
  {
    if outIsName then Built(t, Fail(UndefinedName("isfile")))
    else if rows == [] then Built(t, Pass)
    else Built(t, Fail(FormatArguments))
  }

  /** Whenever the intended merge has work to do and would succeed, the
      code as written fails without copying a row. */
  lemma MergeAsWrittenCopiesNothing(t: map<TileKey, Blob>, rows: seq<map<TileKey, Blob>>)
    requires rows != [] && Disjoint(t, rows)
    ensures MergeSpec(t, rows).outcome == Pass
    ensures MergeAsWritten(false, t, rows) == Built(t, Fail(FormatArguments))
  {
    MergeOutcome(t, rows);
  }

  /** A concrete instance: two one-tile stores of disjoint chunks. */
  lemma MergeAsWrittenExample()
    ensures var a := map[TileKey(0, 0, 0) := Encoded(DEFAULT_FORMAT, Blank)];
      var b := map[TileKey(0, 1, 0) := Encoded(DEFAULT_FORMAT, Blank)];
      && MergeSpec(map[], [a, b]) == Built(a + b, Pass)
      && MergeAsWritten(false, map[], [a, b]) == Built(map[], Fail(FormatArguments))
  {
    var a := map[TileKey(0, 0, 0) := Encoded(DEFAULT_FORMAT, Blank)];
    var b := map[TileKey(0, 1, 0) := Encoded(DEFAULT_FORMAT, Blank)];
    assert [a, b][1..] == [b];
    assert [b][1..] == [];
    assert map[] + a == a;
    assert MergeSpec(a + b, []) == Built(a + b, Pass);
    assert MergeSpec(a, [b]) == Built(a + b, Pass);
  }

  /** The table `create` builds for chunk i of `split` on a fresh store. */
  function ChunkBuild(job: Job, meta: map<string, string>, i: nat): Built {
    var chunks := Split(job.p.z, job.p.width, job.p.height);
    if i < |chunks| then ResumeSpec(job.p.z, job.p.width, job.p.height, chunks[i], job.source, meta, map[])
    else Built(map[], Pass)
  }

  /** The tables of all chunks, in the order `split` yields them. */
  function ChunkTables(job: Job, meta: map<string, string>): seq<map<TileKey, Blob>> {
    var n := |Split(job.p.z, job.p.width, job.p.height)|;
    seq(n, i requires 0 <= i < n => ChunkBuild(job, meta, i).tiles)
  }

  /** Chunk i of `split` is aligned and enumerates at least the level-0
      tile it is named after. */
  lemma ChunkNonEmpty(n: nat, width: nat, height: nat, i: nat)
    requires i < |Split(n, width, height)|
    ensures var p := Pyramid(n, width, height);
      var chunk := Split(n, width, height)[i];
      Aligned(p, chunk) && TileCoords(p, chunk) != []
  {
    var p := Pyramid(n, width, height);
    var xc := Cols(p, 0);
    ChunkCountsGrid(n, width, height);
    var cx, cy := i % xc, i / xc;
    assert Split(n, width, height)[i] == ChunkBounds(n, cx, cy);
    ChunkAligned(n, width, height, cx, cy);
    var corner := ChunkCorner(n, width, height, i);
    SplitChunkOf(n, width, height, i, corner);
  }

  /** Every chunk's build succeeds and yields the canonical table of the
      chunk's keys. */
  lemma ChunkBuildPasses(job: Job, meta: map<string, string>, i: nat)
    requires MetadataReady(meta) && meta["format"] == job.format && SourceReady(job)
    requires i < |Split(job.p.z, job.p.width, job.p.height)|
    ensures var keys := TileCoords(job.p, Split(job.p.z, job.p.width, job.p.height)[i]);
      (forall k :: k in keys ==> InGrid(job.p, k))
      && ChunkBuild(job, meta, i) == Built(CanonicalStore(job, keys), Pass)
  {
    var p := job.p;
    assert p == Pyramid(p.z, p.width, p.height);
    ChunkNonEmpty(p.z, p.width, p.height, i);
    FreshBuild(job, Split(p.z, p.width, p.height)[i], meta);
  }

  /** The full build of the same pyramid, with the default sub-bounds. */
  lemma FullBuildTable(job: Job, meta: map<string, string>)
    requires MetadataReady(meta) && meta["format"] == job.format && SourceReady(job)
    ensures var keys := TileCoords(job.p, DEFAULT_SUB);
      (forall k :: k in keys ==> InGrid(job.p, k))
      && ResumeSpec(job.p.z, job.p.width, job.p.height, DEFAULT_SUB, job.source, meta, map[]).tiles
           == CanonicalStore(job, keys)
  {
    FreshBuild(job, DEFAULT_SUB, meta);
  }

  /** Merge completeness: building every chunk of `split` on its own store
      and merging the stores succeeds and gives exactly the table of one
      build of the whole raster with the default sub-bounds. */
  lemma MergeCompleteness(job: Job, meta: map<string, string>)
    requires MetadataReady(meta) && meta["format"] == job.format && SourceReady(job)
    ensures forall i :: 0 <= i < |Split(job.p.z, job.p.width, job.p.height)| ==> ChunkBuild(job, meta, i).outcome == Pass
    ensures MergeSpec(map[], ChunkTables(job, meta))
      == Built(ResumeSpec(job.p.z, job.p.width, job.p.height, DEFAULT_SUB, job.source, meta, map[]).tiles, Pass)
  {
    forall i | 0 <= i < |Split(job.p.z, job.p.width, job.p.height)|
      ensures ChunkBuild(job, meta, i).outcome == Pass
    {
      ChunkBuildPasses(job, meta, i);
    }
    var tables := ChunkTables(job, meta);
    ChunkTablesDisjoint(job, meta);
    MergeOutcome(map[], tables);
    FullBuildTable(job, meta);
    MergedTable(job, meta);
  }

  /** The merged chunk tables are the canonical store of the full enumeration. */
  lemma MergedTable(job: Job, meta: map<string, string>)
    requires MetadataReady(meta) && meta["format"] == job.format && SourceReady(job)
    ensures forall j :: j in TileCoords(job.p, DEFAULT_SUB) ==> InGrid(job.p, j)
    ensures MergeSpec(map[], ChunkTables(job, meta)).tiles == CanonicalStore(job, TileCoords(job.p, DEFAULT_SUB))
  {
    var r := MergeSpec(map[], ChunkTables(job, meta)).tiles;
    MergedKey(job, meta, TileKey(0, 0, 0));
    var c := CanonicalStore(job, TileCoords(job.p, DEFAULT_SUB));
    forall k
      ensures k in r <==> k in c
      ensures k in r ==> r[k] == c[k]
    {
      MergedKey(job, meta, k);
    }
  }

  /** One key of the merged chunk tables against the full build. */
  lemma MergedKey(job: Job, meta: map<string, string>, k: TileKey)
    requires MetadataReady(meta) && meta["format"] == job.format && SourceReady(job)
    ensures var full := TileCoords(job.p, DEFAULT_SUB);
      var r := MergeSpec(map[], ChunkTables(job, meta)).tiles;
      (forall j :: j in full ==> InGrid(job.p, j))
      && (k in r <==> k in full)
      && (k in r ==> r[k] == CanonicalStore(job, full)[k])
  {
    var p := job.p;
    var n, w, h := p.z, p.width, p.height;
    assert p == Pyramid(n, w, h);
    var chunks := Split(n, w, h);
    var tables := ChunkTables(job, meta);
    var full := TileCoords(p, DEFAULT_SUB);
    var r := MergeSpec(map[], tables).tiles;
    FullBuildTable(job, meta);
    ChunkTablesDisjoint(job, meta);
    SplitPartition(n, w, h, k);
    if k in full {
      var i :| 0 <= i < |chunks| && k in TileCoords(p, chunks[i]);
      ChunkTableAt(job, meta, i);
      MergeCopies(map[], tables, i, k);
    }
    if k in r {
      MergeFrom(map[], tables, k);
      var i :| 0 <= i < |tables| && k in tables[i] && r[k] == tables[i][k];
      ChunkTableAt(job, meta, i);
    }
  }

  /** Table i of the chunk tables is the canonical table of chunk i's keys. */
  lemma ChunkTableAt(job: Job, meta: map<string, string>, i: nat)
    requires MetadataReady(meta) && meta["format"] == job.format && SourceReady(job)
    requires i < |Split(job.p.z, job.p.width, job.p.height)|
    ensures var keys := TileCoords(job.p, Split(job.p.z, job.p.width, job.p.height)[i]);
      (forall k :: k in keys ==> InGrid(job.p, k))
      && i < |ChunkTables(job, meta)| && ChunkTables(job, meta)[i] == CanonicalStore(job, keys)
  {
    ChunkBuildPasses(job, meta, i);
  }

  lemma ChunkTablesDisjoint(job: Job, meta: map<string, string>)
    requires MetadataReady(meta) && meta["format"] == job.format && SourceReady(job)
    ensures Disjoint(map[], ChunkTables(job, meta))
  {
    var p := job.p;
    var n, w, h := p.z, p.width, p.height;
    assert p == Pyramid(n, w, h);
    var chunks := Split(n, w, h);
    var tables := ChunkTables(job, meta);
    forall i, j | 0 <= i < j < |tables|
      ensures tables[i].Keys !! tables[j].Keys
    {
      ChunkTableAt(job, meta, i);
      ChunkTableAt(job, meta, j);
      forall k | k in tables[i] && k in tables[j]
        ensures false
      {
        SplitPartition(n, w, h, k);
      }
    }
  }
}
