/** `_get_quad_mbtiles`: a tile above the base level is the 2x2 block of its
    children one level finer, pasted onto a transparent 512x512 canvas and
    shrunk to one tile. */
module QuadTiles {
  import opened MbTypes
  import opened Arith

  /** The four keys the query asks for, in the order of its parameters:
      (2tx, 2ty), (2tx+1, 2ty), (2tx, 2ty+1), (2tx+1, 2ty+1) at level + 1. */
  function ChildKeys(level: int, tx: int, ty: int): (r: seq<TileKey>)
    ensures |r| == 4
    ensures forall i, j :: 0 <= i < j < 4 ==> r[i] != r[j]
  {
    var x, y := 2 * tx, 2 * ty;
    [TileKey(level + 1, x, y), TileKey(level + 1, x + 1, y),
     TileKey(level + 1, x, y + 1), TileKey(level + 1, x + 1, y + 1)]
  }

  /** The children of a tile are exactly the keys one level finer whose
      column and row halve (rounding down) to the tile's. */
  lemma ChildKeysAreChildren(level: int, tx: int, ty: int, c: TileKey)
    ensures c in ChildKeys(level, tx, ty) <==> c.level == level + 1 && c.col / 2 == tx && c.row / 2 == ty
  {
    var cs := ChildKeys(level, tx, ty);
    if c.level == level + 1 && c.col / 2 == tx && c.row / 2 == ty {
      DivModUnique(c.col, 2, c.col / 2, c.col % 2);
      DivModUnique(c.row, 2, c.row / 2, c.row % 2);
      assert c == cs[(c.col % 2) + 2 * (c.row % 2)];
    } else if c in cs {
      var i :| 0 <= i < 4 && cs[i] == c;
      DivModUnique(c.col, 2, tx, c.col - 2 * tx);
      DivModUnique(c.row, 2, ty, c.row - 2 * ty);
    }
  }

  /** Where `img.paste` puts child c: ((col - 2tx) * 256, (1 + 2ty - row) * 256).
      PIL's y grows downwards, so the child in the lower row goes to the lower half. */
  function PasteOffset(tx: int, ty: int, c: TileKey): Offset {
    Offset((c.col - 2 * tx) * TILE_SIZE, (1 + 2 * ty - c.row) * TILE_SIZE)
  }

  /** The four children land on the four distinct quadrants of the canvas:
      left column at x = 0, right at 256, lower row at y = 256, upper at 0. */
  lemma QuadOffsets(level: int, tx: int, ty: int)
    ensures var cs := ChildKeys(level, tx, ty);
      && (forall i :: 0 <= i < 4 ==>
            PasteOffset(tx, ty, cs[i]).x == (if cs[i].col == 2 * tx then 0 else TILE_SIZE)
            && PasteOffset(tx, ty, cs[i]).y == (if cs[i].row == 2 * ty then TILE_SIZE else 0))
      && (forall i, j :: 0 <= i < j < 4 ==> PasteOffset(tx, ty, cs[i]) != PasteOffset(tx, ty, cs[j]))
  {
  }

  /** Pasting keeps apart tiles that differ: two children of one tile never share an offset. */
  lemma PasteOffsetInjective(tx: int, ty: int, a: TileKey, b: TileKey)
    requires a.level == b.level && PasteOffset(tx, ty, a) == PasteOffset(tx, ty, b)
    ensures a == b
  {
  }

  /** The child of (level, tx, ty) that `paste` puts at offset o. */
  function ChildAt(level: int, tx: int, ty: int, o: Offset): TileKey {
    TileKey(level + 1, 2 * tx + o.x / TILE_SIZE, 2 * ty + 1 - o.y / TILE_SIZE)
  }

  /** Reading a child's offset back gives the child. */
  lemma ChildAtPaste(level: int, tx: int, ty: int, c: TileKey)
    requires c in ChildKeys(level, tx, ty)
    ensures ChildAt(level, tx, ty, PasteOffset(tx, ty, c)) == c
  {
    var o := PasteOffset(tx, ty, c);
    DivModUnique(o.x, TILE_SIZE, c.col - 2 * tx, 0);
    DivModUnique(o.y, TILE_SIZE, 1 + 2 * ty - c.row, 0);
  }

  /** The parts pasted when the children among `cs` that the store holds are
      read in turn, each at its offset. */
  function PartsAmong(tiles: map<TileKey, Blob>, level: int, tx: int, ty: int, cs: seq<TileKey>): map<Offset, Blob>
    decreases |cs|
  {
    if cs == [] then map[]
    else
      var parts := PartsAmong(tiles, level, tx, ty, cs[..|cs| - 1]);
      var c := cs[|cs| - 1];
      if c in tiles then parts[PasteOffset(tx, ty, c) := tiles[c]] else parts
  }

  /** Each stored key among children cs is at its offset, and every part is
      the stored child read back from its offset; there are no more parts
      than keys. */
  lemma PartsAmongContents(tiles: map<TileKey, Blob>, level: int, tx: int, ty: int, cs: seq<TileKey>)
    requires forall c :: c in cs ==> c in ChildKeys(level, tx, ty)
    ensures var r := PartsAmong(tiles, level, tx, ty, cs);
      && (forall c :: c in cs && c in tiles ==> PasteOffset(tx, ty, c) in r && r[PasteOffset(tx, ty, c)] == tiles[c])
      && (forall o :: o in r ==> var c := ChildAt(level, tx, ty, o);
            c in cs && c in tiles && o == PasteOffset(tx, ty, c))
      && |r| <= |cs|
  {
    PartsAmongHas(tiles, level, tx, ty, cs);
    PartsAmongOnly(tiles, level, tx, ty, cs);
    PartsAmongSize(tiles, level, tx, ty, cs);
  }

  lemma {:induction false} PartsAmongHas(tiles: map<TileKey, Blob>, level: int, tx: int, ty: int, cs: seq<TileKey>)
    requires forall c :: c in cs ==> c in ChildKeys(level, tx, ty)
    decreases |cs|
    ensures var r := PartsAmong(tiles, level, tx, ty, cs);
      forall c :: c in cs && c in tiles ==> PasteOffset(tx, ty, c) in r && r[PasteOffset(tx, ty, c)] == tiles[c]
  {
    if cs != [] {
      var init := cs[..|cs| - 1];
      var last := cs[|cs| - 1];
      assert cs == init + [last];
      PartsAmongHas(tiles, level, tx, ty, init);
      var r := PartsAmong(tiles, level, tx, ty, cs);
      forall c | c in cs && c in tiles
        ensures PasteOffset(tx, ty, c) in r && r[PasteOffset(tx, ty, c)] == tiles[c]
      {
        if c != last {
          ChildAtPaste(level, tx, ty, c);
          ChildAtPaste(level, tx, ty, last);
        }
      }
    }
  }

  lemma {:induction false} PartsAmongOnly(tiles: map<TileKey, Blob>, level: int, tx: int, ty: int, cs: seq<TileKey>)
    requires forall c :: c in cs ==> c in ChildKeys(level, tx, ty)
    decreases |cs|
    ensures var r := PartsAmong(tiles, level, tx, ty, cs);
      forall o :: o in r ==> var c := ChildAt(level, tx, ty, o);
        c in cs && c in tiles && o == PasteOffset(tx, ty, c)
  {
    if cs != [] {
      var init := cs[..|cs| - 1];
      var last := cs[|cs| - 1];
      assert cs == init + [last];
      PartsAmongOnly(tiles, level, tx, ty, init);
      if last in tiles {
        ChildAtPaste(level, tx, ty, last);
      }
    }
  }

  lemma {:induction false} PartsAmongSize(tiles: map<TileKey, Blob>, level: int, tx: int, ty: int, cs: seq<TileKey>)
    decreases |cs|
    ensures |PartsAmong(tiles, level, tx, ty, cs)| <= |cs|
  {
    if cs != [] {
      PartsAmongSize(tiles, level, tx, ty, cs[..|cs| - 1]);
    }
  }

  /** The canvas of (level, tx, ty) before shrinking: the stored children,
      read in the order of the query's parameters. */
  function QuadParts(tiles: map<TileKey, Blob>, level: int, tx: int, ty: int): map<Offset, Blob> {
    PartsAmong(tiles, level, tx, ty, ChildKeys(level, tx, ty))
  }

  /** Every stored child of (level, tx, ty) is on the canvas at its own
      offset, every part is a stored child read back from its offset, and
      there are at most four parts. */
  lemma QuadPartsContents(tiles: map<TileKey, Blob>, level: int, tx: int, ty: int)
    ensures var r := QuadParts(tiles, level, tx, ty);
      && (forall c :: c in ChildKeys(level, tx, ty) && c in tiles ==>
            PasteOffset(tx, ty, c) in r && r[PasteOffset(tx, ty, c)] == tiles[c])
      && (forall o :: o in r ==> var c := ChildAt(level, tx, ty, o);
            c in ChildKeys(level, tx, ty) && c in tiles && o == PasteOffset(tx, ty, c))
      && |r| <= 4
  {
    PartsAmongContents(tiles, level, tx, ty, ChildKeys(level, tx, ty));
  }

  /** The derived tile depends on the four children and on nothing else in the store. */
  lemma QuadReadsOnlyChildren(t1: map<TileKey, Blob>, t2: map<TileKey, Blob>, level: int, tx: int, ty: int)
    requires forall c :: c in ChildKeys(level, tx, ty) ==> (c in t1 <==> c in t2)
    requires forall c :: c in ChildKeys(level, tx, ty) && c in t1 ==> t1[c] == t2[c]
    ensures QuadParts(t1, level, tx, ty) == QuadParts(t2, level, tx, ty)
  {
    PartsAmongAgree(t1, t2, level, tx, ty, ChildKeys(level, tx, ty));
  }

  lemma {:induction false} PartsAmongAgree(t1: map<TileKey, Blob>, t2: map<TileKey, Blob>, level: int, tx: int, ty: int,
                                           cs: seq<TileKey>)
    requires forall c :: c in cs ==> (c in t1 <==> c in t2)
    requires forall c :: c in cs && c in t1 ==> t1[c] == t2[c]
    decreases |cs|
    ensures PartsAmong(t1, level, tx, ty, cs) == PartsAmong(t2, level, tx, ty, cs)
  {
    if cs != [] {
      var init := cs[..|cs| - 1];
      assert forall c :: c in init ==> c in cs;
      PartsAmongAgree(t1, t2, level, tx, ty, init);
    }
  }
}
