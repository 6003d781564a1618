/** Grid geometry of `resume` in gdal2mbt.py: how many tiles each zoom level
    has, and which of them a sub-bound rectangle selects. */
module TileGrid {
  import opened MbTypes
  import opened Arith

  function Pow2(n: nat): (r: nat)
    ensures r >= 1
  {
    if n == 0 then 1 else 2 * Pow2(n - 1)
  }

  lemma {:induction false} Pow2Add(a: nat, b: nat)
    ensures Pow2(a + b) == Pow2(a) * Pow2(b)
  {
    if a > 0 {
      Pow2Add(a - 1, b);
      assert Pow2(a + b) == 2 * Pow2(a - 1 + b);
    }
  }

  /** Ceiling of a real number (`math.ceil`). */
  function Ceil(x: real): (r: int)
    ensures (r - 1) as real < x <= r as real
  {
    -((-x).Floor)
  }

  /** `_tile_coord`: the number of tiles of edge `tileSize` needed to cover x by y pixels. */
  function TileCoord(x: real, y: real, tileSize: nat): (r: (int, int))
    requires tileSize > 0
    ensures (r.0 - 1) as real < x / tileSize as real <= r.0 as real
    ensures (r.1 - 1) as real < y / tileSize as real <= r.1 as real
  {
    (Ceil(x / tileSize as real), Ceil(y / tileSize as real))
  }

  /** `_floor_tile_coord`: the tile holding pixel (x, y). */
  function FloorTileCoord(x: real, y: real, tileSize: nat): (r: (int, int))
    requires tileSize > 0
    ensures r.0 as real <= x / tileSize as real < (r.0 + 1) as real
    ensures r.1 as real <= y / tileSize as real < (r.1 + 1) as real
  {
    ((x / tileSize as real).Floor, (y / tileSize as real).Floor)
  }

  /** Integer ceiling division, `int(math.ceil(a / float(d)))` on naturals. */
  function CeilDiv(a: nat, d: nat): nat
    requires d > 0
    decreases a
  {
    if a == 0 then 0
    else if a <= d then 1
    else CeilDiv(a - d, d) + 1
  }

  /** CeilDiv(a, d) is the least r with a <= r * d. */
  lemma {:induction false} CeilDivBounds(a: nat, d: nat)
    requires d > 0
    decreases a
    ensures a <= CeilDiv(a, d) * d < a + d
  {
    if a > d {
      CeilDivBounds(a - d, d);
      assert (CeilDiv(a - d, d) + 1) * d == CeilDiv(a - d, d) * d + d;
    }
  }

  lemma CeilDivUnique(a: nat, d: nat, r: int)
    requires d > 0 && a <= r * d < a + d
    ensures r == CeilDiv(a, d)
  {
    var c := CeilDiv(a, d);
    CeilDivBounds(a, d);
    if r < c {
      MulLt(r, c, d);
    } else if c < r {
      MulLt(c, r, d);
    }
  }

  lemma RealMulPos(u: real, v: real)
    requires u > 0.0 && v > 0.0
    ensures u * v > 0.0
  {
  }

  lemma QuotientAtMost(a: nat, d: nat, c: int)
    requires d > 0 && a <= c * d
    ensures a as real / d as real <= c as real
  {
    var x := a as real / d as real;
    var dr := d as real;
    assert x * dr == a as real;
    assert (c * d) as real == c as real * dr;
    assert (x - c as real) * dr == x * dr - c as real * dr;
    if x > c as real {
      RealMulPos(x - c as real, dr);
    }
  }

  lemma QuotientAbove(a: nat, d: nat, c: int)
    requires d > 0 && c * d < a
    ensures c as real < a as real / d as real
  {
    var x := a as real / d as real;
    var dr := d as real;
    assert x * dr == a as real;
    assert (c * d) as real == c as real * dr;
    assert (c as real - x) * dr == c as real * dr - x * dr;
    if x < c as real {
      RealMulPos(c as real - x, dr);
    }
  }

  /** On integers, `_tile_coord`'s float ceiling is exact integer ceiling division. */
  lemma CeilOfQuotient(a: nat, d: nat)
    requires d > 0
    ensures Ceil(a as real / d as real) == CeilDiv(a, d)
  {
    var c: int := CeilDiv(a, d);
    CeilDivBounds(a, d);
    QuotientAtMost(a, d, c);
    QuotientAbove(a, d, c - 1);
  }

  /** Ceiling division twice is ceiling division by the product. */
  lemma CeilDivTwice(a: nat, b: nat, c: nat)
    requires b > 0 && c > 0
    ensures CeilDiv(CeilDiv(a, b), c) == CeilDiv(a, b * c)
  {
    var q := CeilDiv(a, b);
    var r := CeilDiv(q, c);
    CeilDivBounds(a, b);
    CeilDivBounds(q, c);
    CeilChain(a, b, c, q, r);
    CeilDivUnique(a, b * c, r);
  }

  /** What `resume` knows of a build: the finest zoom Z (`num_levels`) and the
      raster size in pixels (`in_width`, `in_height`). */
  datatype Pyramid = Pyramid(z: nat, width: nat, height: nat)

  /** Base-level pixels covered by one tile of the given level: 2^(Z-L) * 256. */
  function TileSpan(p: Pyramid, level: nat): (r: nat)
    requires level <= p.z
    ensures r >= TILE_SIZE
  {
    MulLe(1, Pow2(p.z - level), TILE_SIZE);
    Pow2(p.z - level) * TILE_SIZE
  }

  /** `get_level_size`: the raster size at the resolution of `level`. */
  function LevelExtent(p: Pyramid, level: nat): (real, real)
    requires level <= p.z
  {
    var invf := Pow2(p.z - level) as real;
    (p.width as real / invf, p.height as real / invf)
  }

  /** Tiles per row of a level: ceil(in_width / (2^(Z-L) * 256)). */
  function Cols(p: Pyramid, level: nat): nat
    requires level <= p.z
  {
    CeilDiv(p.width, TileSpan(p, level))
  }

  /** Tiles per column of a level: ceil(in_height / (2^(Z-L) * 256)). */
  function Rows(p: Pyramid, level: nat): nat
    requires level <= p.z
  {
    CeilDiv(p.height, TileSpan(p, level))
  }

  /** `get_level_tiles`: `_tile_coord` of the level's float size is exactly the
      integer grid (Cols, Rows). */
  lemma LevelTiles(p: Pyramid, level: nat)
    requires level <= p.z
    ensures var e := LevelExtent(p, level);
      TileCoord(e.0, e.1, TILE_SIZE) == (Cols(p, level) as int, Rows(p, level) as int)
  {
    var f := Pow2(p.z - level);
    assert p.width as real / f as real / TILE_SIZE as real == p.width as real / (f * TILE_SIZE) as real;
    assert p.height as real / f as real / TILE_SIZE as real == p.height as real / (f * TILE_SIZE) as real;
    CeilOfQuotient(p.width, f * TILE_SIZE);
    CeilOfQuotient(p.height, f * TILE_SIZE);
  }

  /** The key lies in its level's grid. */
  predicate InGrid(p: Pyramid, k: TileKey) {
    0 <= k.level <= p.z && 0 <= k.col < Cols(p, k.level) && 0 <= k.row < Rows(p, k.level)
  }

  /** Each level has ceil(n / 2) tiles per axis where the next finer level has n. */
  lemma LevelHalves(p: Pyramid, level: nat)
    requires level < p.z
    ensures Cols(p, level) == CeilDiv(Cols(p, level + 1), 2)
    ensures Rows(p, level) == CeilDiv(Rows(p, level + 1), 2)
  {
    var s := TileSpan(p, level + 1);
    assert Pow2(p.z - level) == 2 * Pow2(p.z - (level + 1));
    assert TileSpan(p, level) == s * 2;
    CeilDivTwice(p.width, s, 2);
    CeilDivTwice(p.height, s, 2);
  }

  /** Every tile of level L+1 has its parent (col div 2, row div 2) in level L's
      grid, and every tile of level L has its first child in level L+1's grid. */
  lemma ParentInGrid(p: Pyramid, child: TileKey)
    requires InGrid(p, child) && child.level > 0
    ensures InGrid(p, TileKey(child.level - 1, child.col / 2, child.row / 2))
  {
    LevelHalves(p, child.level - 1);
    CeilDivBounds(Cols(p, child.level), 2);
    CeilDivBounds(Rows(p, child.level), 2);
  }

  lemma FirstChildInGrid(p: Pyramid, parent: TileKey)
    requires InGrid(p, parent) && parent.level < p.z
    ensures InGrid(p, TileKey(parent.level + 1, 2 * parent.col, 2 * parent.row))
  {
    LevelHalves(p, parent.level);
    CeilDivBounds(Cols(p, parent.level + 1), 2);
    CeilDivBounds(Rows(p, parent.level + 1), 2);
  }

  // Sub-bounds

  /** A sub-bound edge: a tile coordinate, or `float('inf')`. */
  datatype Bound = Fin(n: int) | Inf

  /** `sub_bounds = (left, bottom, right, top)` in base-level tile coordinates. */
  datatype SubBounds = SubBounds(left: int, bottom: int, right: Bound, top: Bound)

  /** `DEFAULT_SUB = (0, 0, inf, inf)`. */
  const DEFAULT_SUB: SubBounds := SubBounds(0, 0, Inf, Inf)

  /** Half-open tile rectangle [left, right) x [bottom, top). */
  datatype Rect = Rect(left: int, bottom: int, right: int, top: int)

  predicate InRect(r: Rect, x: int, y: int) {
    r.left <= x < r.right && r.bottom <= y < r.top
  }

  function Max(a: int, b: int): int { if a < b then b else a }

  /** `min(level_tiles, bound / invf)`; Python 2 divides integers by flooring, as
      Dafny's `/` does for a positive divisor, and inf / invf stays inf. */
  function MinScaled(n: int, b: Bound, invf: nat): int
    requires invf > 0
  {
    match b
    case Inf => n
    case Fin(m) => if m / invf < n then m / invf else n
  }

  /** True when `edge` does not exceed the bound. */
  predicate Within(edge: int, b: Bound) {
    b.Inf? || edge <= b.n
  }

  /** `get_level_sub`: the sub-bounds scaled down to `level` and clamped to its grid. */
  function LevelSub(p: Pyramid, sub: SubBounds, level: nat): (r: Rect)
    requires level <= p.z
    ensures 0 <= r.left && 0 <= r.bottom
    ensures r.right <= Cols(p, level) && r.top <= Rows(p, level)
    ensures sub == DEFAULT_SUB ==> r == Rect(0, 0, Cols(p, level), Rows(p, level))
  {
    var invf := Pow2(p.z - level);
    Rect(Max(0, sub.left / invf), Max(0, sub.bottom / invf),
         MinScaled(Cols(p, level), sub.right, invf), MinScaled(Rows(p, level), sub.top, invf))
  }

  lemma FloorLeft(l: int, f: nat, x: int)
    requires f > 0
    ensures x >= l / f <==> l < (x + 1) * f
  {
    var q, r := l / f, l % f;
    assert l == q * f + r;
    if x >= q {
      MulLe(q + 1, x + 1, f);
    } else {
      MulLe(x + 1, q, f);
    }
  }

  lemma FloorRight(m: int, f: nat, x: int)
    requires f > 0
    ensures x < m / f <==> (x + 1) * f <= m
  {
    var q, r := m / f, m % f;
    assert m == q * f + r;
    if x + 1 <= q {
      MulLe(x + 1, q, f);
    } else {
      MulLe(q + 1, x + 1, f);
    }
  }

  /** A tile (x, y) of `level` covers base-level tiles [x * f, (x + 1) * f) with
      f = 2^(Z-L). It is selected exactly when it lies in the level's grid and its
      footprint ends right of `left` and above `bottom`, and no further out than
      `right` and `top`. */
  lemma LevelSubMembership(p: Pyramid, sub: SubBounds, level: nat, x: int, y: int)
    requires level <= p.z
    ensures var f := Pow2(p.z - level);
      InRect(LevelSub(p, sub, level), x, y) <==>
        && 0 <= x < Cols(p, level) && 0 <= y < Rows(p, level)
        && sub.left < (x + 1) * f && sub.bottom < (y + 1) * f
        && Within((x + 1) * f, sub.right) && Within((y + 1) * f, sub.top)
  {
    var f := Pow2(p.z - level);
    FloorLeft(sub.left, f, x);
    FloorLeft(sub.bottom, f, y);
    if sub.right.Fin? { FloorRight(sub.right.n, f, x); }
    if sub.top.Fin? { FloorRight(sub.top.n, f, y); }
  }
}
