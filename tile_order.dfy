/** The order in which `resume` visits tiles (`tile_coords`) and the number it
    gives each tile (`get_tile_nr`), in gdal2mbt.py. */
module TileOrder {
  import opened MbTypes
  import opened Arith
  import opened TileGrid
  import opened IntSeqs

  function Span(lo: int, hi: int): nat {
    if lo < hi then hi - lo else 0
  }

  /** One row of the enumeration: `for x in xrange(left, right)`. */
  function RowKeys(level: int, y: int, left: int, right: int): seq<TileKey> {
    seq(Span(left, right), i => TileKey(level, left + i, y))
  }

  /** One level of the enumeration: rows `xrange(bottom, top)` outer, columns inner. */
  function RectKeys(level: int, r: Rect): seq<TileKey>
    decreases r.top - r.bottom
  {
    if r.bottom >= r.top then []
    else RowKeys(level, r.bottom, r.left, r.right) + RectKeys(level, r.(bottom := r.bottom + 1))
  }

  function LevelKeys(p: Pyramid, sub: SubBounds, level: nat): seq<TileKey>
    requires level <= p.z
  {
    RectKeys(level, LevelSub(p, sub, level))
  }

  /** The first n levels of the enumeration, finest first: Z, Z-1, ..., Z-n+1. */
  function LevelsDown(p: Pyramid, sub: SubBounds, n: nat): seq<TileKey>
    requires n <= p.z + 1
  {
    if n == 0 then [] else LevelsDown(p, sub, n - 1) + LevelKeys(p, sub, p.z - (n - 1))
  }

  /** `tile_coords`: the levels `range(num_levels, -1, -1)`, each restricted to its `get_level_sub`. */
  function TileCoords(p: Pyramid, sub: SubBounds): seq<TileKey> {
    LevelsDown(p, sub, p.z + 1)
  }

  /** `level_tiles`: the full-grid tile count of levels Z, Z-1, ..., 0, in that order. */
  function LevelCounts(p: Pyramid): (r: seq<nat>)
    ensures |r| == p.z + 1
  {
    seq(p.z + 1, i requires 0 <= i <= p.z => Cols(p, p.z - i) * Rows(p, p.z - i))
  }

  function Sum(s: seq<nat>): nat {
    if s == [] then 0 else Sum(s[..|s| - 1]) + s[|s| - 1]
  }

  /** `total_tiles`. */
  function TotalTiles(p: Pyramid): nat {
    Sum(LevelCounts(p))
  }

  /** `get_tile_nr`: 1 + the tiles of all finer levels + the row-major position in the level. */
  function TileNr(p: Pyramid, level: nat, tx: int, ty: int): int
    requires level <= p.z
  {
    1 + Sum(LevelCounts(p)[..p.z - level]) + tx + ty * Cols(p, level)
  }

  /** `get_tile_nr` of a key; keys outside the pyramid's levels get 0. */
  function KeyNr(p: Pyramid, k: TileKey): int {
    if 0 <= k.level <= p.z then TileNr(p, k.level, k.col, k.row) else 0
  }

  /** Row-major position of a key in a grid `cols` tiles wide: `tx + ty * w`. */
  function Pos(k: TileKey, cols: int): int {
    k.col + k.row * cols
  }

  function Positions(s: seq<TileKey>, cols: int): seq<int> {
    seq(|s|, i requires 0 <= i < |s| => Pos(s[i], cols))
  }

  /** The tile numbers of a sequence of keys. */
  function Nrs(p: Pyramid, s: seq<TileKey>): seq<int> {
    seq(|s|, i requires 0 <= i < |s| => KeyNr(p, s[i]))
  }

  // Sums of level counts

  lemma SumStep(s: seq<nat>, n: nat)
    requires n < |s|
    ensures Sum(s[..n + 1]) == Sum(s[..n]) + s[n]
  {
    assert s[..n + 1][..n] == s[..n];
  }

  lemma {:induction false} SumMono(s: seq<nat>, m: nat, n: nat)
    requires m <= n <= |s|
    ensures Sum(s[..m]) <= Sum(s[..n])
  {
    if m < n {
      SumStep(s, n - 1);
      SumMono(s, m, n - 1);
    }
  }

  /** A level's numbers lie between the count of all finer levels and that count plus its own. */
  lemma TileNrRange(p: Pyramid, k: TileKey)
    requires InGrid(p, k)
    ensures var before := Sum(LevelCounts(p)[..p.z - k.level]);
      && before + 1 <= KeyNr(p, k) <= before + Cols(p, k.level) * Rows(p, k.level)
      && before + Cols(p, k.level) * Rows(p, k.level) == Sum(LevelCounts(p)[..p.z - k.level + 1])
  {
    var cols, rows := Cols(p, k.level), Rows(p, k.level);
    MulLe(k.row, rows - 1, cols);
    assert (rows - 1) * cols == rows * cols - cols;
    SumStep(LevelCounts(p), p.z - k.level);
  }

  /** `get_tile_nr` numbers every tile of the pyramid within 1..total_tiles. */
  lemma TileNrBounds(p: Pyramid, k: TileKey)
    requires InGrid(p, k)
    ensures 1 <= KeyNr(p, k) <= TotalTiles(p)
  {
    TileNrRange(p, k);
    SumMono(LevelCounts(p), p.z - k.level + 1, p.z + 1);
    assert LevelCounts(p)[..p.z + 1] == LevelCounts(p);
  }

  // Ascending numbering

  lemma RowPositions(level: int, y: int, left: int, right: int, cols: nat)
    requires 0 <= left && right <= cols
    ensures Increasing(Positions(RowKeys(level, y, left, right), cols))
    ensures Between(Positions(RowKeys(level, y, left, right), cols), y * cols, y * cols + cols)
  {
  }

  lemma RectPositions(level: int, r: Rect, cols: nat)
    requires 0 <= r.left && r.right <= cols && 0 <= r.bottom
    decreases r.top - r.bottom
    ensures Increasing(Positions(RectKeys(level, r), cols))
    ensures Between(Positions(RectKeys(level, r), cols), r.bottom * cols, Max(r.bottom, r.top) * cols)
  {
    if r.bottom < r.top {
      var y := r.bottom;
      var row := RowKeys(level, y, r.left, r.right);
      var rest := r.(bottom := y + 1);
      assert RectKeys(level, r) == row + RectKeys(level, rest);
      PositionsConcat(row, RectKeys(level, rest), cols);
      RowPositions(level, y, r.left, r.right, cols);
      RectPositions(level, rest, cols);
      NextRowArith(y, r.top, cols);
      IncreasingConcat(Positions(row, cols), Positions(RectKeys(level, rest), cols),
                       y * cols, (y + 1) * cols, Max(y, r.top) * cols);
    }
  }

  lemma PositionsConcat(a: seq<TileKey>, b: seq<TileKey>, cols: int)
    ensures Positions(a + b, cols) == Positions(a, cols) + Positions(b, cols)
  {
  }

  lemma NextRowArith(y: int, top: int, cols: nat)
    requires y < top
    ensures (y + 1) * cols == y * cols + cols
    ensures Max(y + 1, top) == Max(y, top) && (y + 1) * cols <= Max(y, top) * cols
  {
    MulLe(y + 1, top, cols);
  }

  lemma LevelAscending(p: Pyramid, sub: SubBounds, level: nat)
    requires level <= p.z
    ensures Increasing(Nrs(p, LevelKeys(p, sub, level)))
    ensures Between(Nrs(p, LevelKeys(p, sub, level)), Sum(LevelCounts(p)[..p.z - level]) + 1,
                    Sum(LevelCounts(p)[..p.z - level + 1]) + 1)
  {
    RectAscending(p, level, LevelSub(p, sub, level));
  }

  /** Any rectangle of a level's grid, row by row, is numbered in increasing
      order within that level's block of numbers. */
  lemma RectAscending(p: Pyramid, level: nat, r: Rect)
    requires level <= p.z
    requires 0 <= r.left && 0 <= r.bottom && r.right <= Cols(p, level) && r.top <= Rows(p, level)
    ensures Increasing(Nrs(p, RectKeys(level, r)))
    ensures Between(Nrs(p, RectKeys(level, r)), Sum(LevelCounts(p)[..p.z - level]) + 1,
                    Sum(LevelCounts(p)[..p.z - level + 1]) + 1)
  {
    var keys := RectKeys(level, r);
    var cols, rows := Cols(p, level), Rows(p, level);
    var before := Sum(LevelCounts(p)[..p.z - level]);
    var ps := Positions(keys, cols);
    RectPositions(level, r, cols);
    SumStep(LevelCounts(p), p.z - level);
    assert LevelCounts(p)[p.z - level] == cols * rows;
    NrsArePositions(p, level, r);
    var lo, hi := r.bottom * cols, Max(r.bottom, r.top) * cols;
    IncreasingShifted(ps, Nrs(p, keys), before + 1, lo, hi);
    if r.bottom < r.top {
      MulLe(0, r.bottom, cols);
      MulLe(r.top, rows, cols);
      BetweenWiden(Nrs(p, keys), lo + (before + 1), hi + (before + 1), before + 1, before + cols * rows + 1);
    }
  }

  /** The number of a key of the level is 1 + the tiles of the finer levels +
      its row-major position. */
  lemma NrsArePositions(p: Pyramid, level: nat, r: Rect)
    requires level <= p.z
    ensures var keys := RectKeys(level, r);
      |Nrs(p, keys)| == |Positions(keys, Cols(p, level))| &&
      forall i :: 0 <= i < |keys| ==>
        Nrs(p, keys)[i] == Positions(keys, Cols(p, level))[i] + (Sum(LevelCounts(p)[..p.z - level]) + 1)
  {
    var keys := RectKeys(level, r);
    forall i | 0 <= i < |keys|
      ensures keys[i].level == level
    {
      assert keys[i] in keys;
      RectKeysMembership(level, r, keys[i]);
    }
  }

  lemma NrsConcat(p: Pyramid, a: seq<TileKey>, b: seq<TileKey>)
    ensures Nrs(p, a + b) == Nrs(p, a) + Nrs(p, b)
  {
  }

  lemma {:induction false} LevelsDownAscending(p: Pyramid, sub: SubBounds, n: nat)
    requires n <= p.z + 1
    ensures Increasing(Nrs(p, LevelsDown(p, sub, n)))
    ensures Between(Nrs(p, LevelsDown(p, sub, n)), 1, Sum(LevelCounts(p)[..n]) + 1)
  {
    if n > 0 {
      LevelsDownAscending(p, sub, n - 1);
      NthLevelAscending(p, sub, n);
      NrsConcatAscending(p, LevelsDown(p, sub, n - 1), LevelKeys(p, sub, p.z - (n - 1)),
                         1, Sum(LevelCounts(p)[..n - 1]) + 1, Sum(LevelCounts(p)[..n]) + 1);
    }
  }

  /** Keys numbered in increasing order below mid, followed by keys numbered
      in increasing order from mid on, are numbered in increasing order. */
  lemma NrsConcatAscending(p: Pyramid, a: seq<TileKey>, b: seq<TileKey>, lo: int, mid: int, hi: int)
    requires Increasing(Nrs(p, a)) && Between(Nrs(p, a), lo, mid)
    requires Increasing(Nrs(p, b)) && Between(Nrs(p, b), mid, hi)
    requires lo <= mid <= hi
    ensures Increasing(Nrs(p, a + b)) && Between(Nrs(p, a + b), lo, hi)
  {
    NrsConcat(p, a, b);
    IncreasingConcat(Nrs(p, a), Nrs(p, b), lo, mid, hi);
  }

  /** The n-th level of the enumeration, counted from the finest, numbered
      after the n - 1 levels before it. */
  lemma NthLevelAscending(p: Pyramid, sub: SubBounds, n: nat)
    requires 0 < n <= p.z + 1
    ensures var b := Nrs(p, LevelKeys(p, sub, p.z - (n - 1)));
      && Increasing(b)
      && Between(b, Sum(LevelCounts(p)[..n - 1]) + 1, Sum(LevelCounts(p)[..n]) + 1)
      && Sum(LevelCounts(p)[..n - 1]) <= Sum(LevelCounts(p)[..n])
  {
    var level := p.z - (n - 1);
    assert p.z - level == n - 1 && p.z - level + 1 == n;
    LevelAscending(p, sub, level);
    SumMono(LevelCounts(p), n - 1, n);
  }

  /** Along `tile_coords`, `get_tile_nr` strictly increases and stays within
      1..total_tiles, whatever the sub-bounds. */
  lemma TileCoordsAscending(p: Pyramid, sub: SubBounds)
    ensures var keys := TileCoords(p, sub);
      && (forall i, j :: 0 <= i < j < |keys| ==> KeyNr(p, keys[i]) < KeyNr(p, keys[j]))
      && (forall i :: 0 <= i < |keys| ==> 1 <= KeyNr(p, keys[i]) <= TotalTiles(p))
  {
    var keys := TileCoords(p, sub);
    LevelsDownAscending(p, sub, p.z + 1);
    assert LevelCounts(p)[..p.z + 1] == LevelCounts(p);
    assert forall i :: 0 <= i < |keys| ==> Nrs(p, keys)[i] == KeyNr(p, keys[i]);
  }

  /** `tile_coords` never repeats a key. */
  lemma TileCoordsDistinct(p: Pyramid, sub: SubBounds)
    ensures var keys := TileCoords(p, sub);
      forall i, j :: 0 <= i < |keys| && 0 <= j < |keys| && i != j ==> keys[i] != keys[j]
  {
    TileCoordsAscending(p, sub);
  }

  // Which keys are enumerated

  lemma {:induction false} RectKeysMembership(level: int, r: Rect, k: TileKey)
    decreases r.top - r.bottom
    ensures k in RectKeys(level, r) <==> k.level == level && InRect(r, k.col, k.row)
  {
    if r.bottom < r.top {
      var row := RowKeys(level, r.bottom, r.left, r.right);
      RectKeysMembership(level, r.(bottom := r.bottom + 1), k);
      if k.level == level && k.row == r.bottom && r.left <= k.col < r.right {
        assert row[k.col - r.left] == k;
      }
    }
  }

  lemma {:induction false} LevelsDownMembership(p: Pyramid, sub: SubBounds, n: nat, k: TileKey)
    requires n <= p.z + 1
    ensures k in LevelsDown(p, sub, n) <==>
      p.z - n < k.level <= p.z && InRect(LevelSub(p, sub, k.level), k.col, k.row)
  {
    if n > 0 {
      LevelsDownMembership(p, sub, n - 1, k);
      RectKeysMembership(p.z - (n - 1), LevelSub(p, sub, p.z - (n - 1)), k);
    }
  }

  /** A key is enumerated exactly when its level is one of 0..Z and it lies in
      that level's `get_level_sub` rectangle. */
  lemma TileCoordsMembership(p: Pyramid, sub: SubBounds, k: TileKey)
    ensures k in TileCoords(p, sub) <==>
      0 <= k.level <= p.z && InRect(LevelSub(p, sub, k.level), k.col, k.row)
  {
    LevelsDownMembership(p, sub, p.z + 1, k);
  }

  /** Every enumerated key lies in its level's grid. */
  lemma TileCoordsInGrid(p: Pyramid, sub: SubBounds, k: TileKey)
    requires k in TileCoords(p, sub)
    ensures InGrid(p, k)
  {
    TileCoordsMembership(p, sub, k);
  }

  /** All of a finer level's enumerated keys come before any key of a coarser level. */
  lemma FinerFirst(p: Pyramid, sub: SubBounds, i: nat, j: nat)
    requires i < |TileCoords(p, sub)| && j < |TileCoords(p, sub)|
    requires TileCoords(p, sub)[i].level > TileCoords(p, sub)[j].level
    ensures i < j
  {
    var keys := TileCoords(p, sub);
    TileCoordsAscending(p, sub);
    assert keys[i] in keys && keys[j] in keys;
    TileCoordsInGrid(p, sub, keys[i]);
    TileCoordsInGrid(p, sub, keys[j]);
    TileNrRange(p, keys[i]);
    TileNrRange(p, keys[j]);
    SumMono(LevelCounts(p), p.z - keys[i].level + 1, p.z - keys[j].level);
  }

  // The default sub-bounds

  lemma {:induction false} FullRectLength(level: int, cols: nat, bottom: int, top: int)
    requires bottom <= top
    decreases top - bottom
    ensures |RectKeys(level, Rect(0, bottom, cols, top))| == cols * (top - bottom)
  {
    if bottom < top {
      FullRectLength(level, cols, bottom + 1, top);
      assert (top - bottom) * cols == (top - (bottom + 1)) * cols + cols;
    }
  }

  lemma {:induction false} DefaultLevelsDownLength(p: Pyramid, n: nat)
    requires n <= p.z + 1
    ensures |LevelsDown(p, DEFAULT_SUB, n)| == Sum(LevelCounts(p)[..n])
  {
    if n > 0 {
      var level := p.z - (n - 1);
      assert p.z - level == n - 1;
      DefaultLevelsDownLength(p, n - 1);
      DefaultLevelLength(p, level);
      SumStep(LevelCounts(p), n - 1);
      LevelsDownStep(p, DEFAULT_SUB, n);
    }
  }

  lemma LevelsDownStep(p: Pyramid, sub: SubBounds, n: nat)
    requires 0 < n <= p.z + 1
    ensures |LevelsDown(p, sub, n)| == |LevelsDown(p, sub, n - 1)| + |LevelKeys(p, sub, p.z - (n - 1))|
  {
  }

  lemma DefaultLevelLength(p: Pyramid, level: nat)
    requires level <= p.z
    ensures |LevelKeys(p, DEFAULT_SUB, level)| == LevelCounts(p)[p.z - level]
  {
    var c, r := Cols(p, level), Rows(p, level);
    assert LevelCounts(p)[p.z - level] == c * r;
    assert LevelKeys(p, DEFAULT_SUB, level) == RectKeys(level, Rect(0, 0, c, r));
    FullRectLength(level, c, 0, r);
  }

  /** With the default sub-bounds the enumeration holds `total_tiles` keys and
      the i-th of them is tile number i + 1: `get_tile_nr` is a bijection from
      the enumeration onto 1..total_tiles that follows its order. */
  lemma DefaultNumbering(p: Pyramid)
    ensures |TileCoords(p, DEFAULT_SUB)| == TotalTiles(p)
    ensures forall i :: 0 <= i < TotalTiles(p) ==> KeyNr(p, TileCoords(p, DEFAULT_SUB)[i]) == i + 1
  {
    var keys := TileCoords(p, DEFAULT_SUB);
    DefaultLevelsDownLength(p, p.z + 1);
    assert LevelCounts(p)[..p.z + 1] == LevelCounts(p);
    LevelsDownAscending(p, DEFAULT_SUB, p.z + 1);
    var nrs := Nrs(p, keys);
    assert |nrs| == |keys|;
    IncreasingFills(nrs);
    forall i | 0 <= i < TotalTiles(p)
      ensures KeyNr(p, keys[i]) == i + 1
    {
      assert nrs[i] == KeyNr(p, keys[i]);
    }
  }
}
