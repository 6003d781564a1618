/** The effect on the tile table of the statements `set_levels` issues
    (gdal2mbt.py): `UPDATE tiles SET zoom_level=zoom_level+d` and the
    intended `DELETE FROM tiles WHERE zoom_level<n`. */
module LevelMaps {
  import opened MbTypes

  function Shift(k: TileKey, d: int): TileKey {
    k.(level := k.level + d)
  }

  /** The keys of a table after every zoom has moved by d. */
  function ShiftKeys(s: set<TileKey>, d: int): set<TileKey> {
    set k | k in s :: Shift(k, d)
  }

  /** `UPDATE tiles SET zoom_level=zoom_level+d`: every key's zoom moved by d;
      columns, rows and blobs untouched. */
  function ShiftLevels(t: map<TileKey, Blob>, d: int): map<TileKey, Blob> {
    map k | k in ShiftKeys(t.Keys, d) && Shift(k, -d) in t :: t[Shift(k, -d)]
  }

  /** A key is in the shifted table exactly when the key d levels lower is
      in the original, and it carries that key's blob. */
  lemma ShiftedKey(t: map<TileKey, Blob>, d: int, k: TileKey)
    ensures k in ShiftLevels(t, d) <==> Shift(k, -d) in t
    ensures k in ShiftLevels(t, d) ==> ShiftLevels(t, d)[k] == t[Shift(k, -d)]
  {
    var j := Shift(k, -d);
    assert Shift(j, d) == k;
  }

  /** The keys below zoom n removed, every other row kept as it is. */
  function DropBelow(t: map<TileKey, Blob>, n: int): (r: map<TileKey, Blob>)
    ensures forall k :: k in r <==> k in t && k.level >= n
    ensures forall k :: k in r ==> r[k] == t[k]
  {
    map k | k in t && k.level >= n :: t[k]
  }

  ghost predicate LevelsAtLeast(t: map<TileKey, Blob>, n: int) {
    forall k :: k in t ==> k.level >= n
  }

  ghost predicate LevelsBelow(t: map<TileKey, Blob>, n: int) {
    forall k :: k in t ==> k.level < n
  }

  /** `MAX(zoom_level)` of a non-empty table. */
  ghost function MaxLevel(t: map<TileKey, Blob>): (m: int)
    requires t != map[]
    ensures exists k :: k in t && k.level == m
    ensures forall k :: k in t ==> k.level <= m
  {
    MaxOfKeys(t.Keys)
  }

  ghost function MaxOfKeys(s: set<TileKey>): (m: int)
    requires s != {}
    ensures exists k :: k in s && k.level == m
    ensures forall k :: k in s ==> k.level <= m
    decreases s
  {
    var k :| k in s;
    if s == {k} then k.level
    else
      var m := MaxOfKeys(s - {k});
      if k.level > m then k.level else m
  }

  /** Shifting by a and then by b is shifting by a + b. */
  lemma ShiftCompose(t: map<TileKey, Blob>, a: int, b: int)
    ensures ShiftLevels(ShiftLevels(t, a), b) == ShiftLevels(t, a + b)
  {
    var m := ShiftLevels(t, a);
    var l, r := ShiftLevels(m, b), ShiftLevels(t, a + b);
    forall k
      ensures k in l <==> k in r
      ensures k in l ==> l[k] == r[k]
    {
      var j := Shift(k, -b);
      ShiftedKey(m, b, k);
      ShiftedKey(t, a, j);
      ShiftedKey(t, a + b, k);
      assert Shift(j, -a) == Shift(k, -(a + b));
    }
  }

  /** Shifting by 0 changes nothing. */
  lemma ShiftZero(t: map<TileKey, Blob>)
    ensures ShiftLevels(t, 0) == t
  {
    var r := ShiftLevels(t, 0);
    forall k
      ensures k in r <==> k in t
      ensures k in r ==> r[k] == t[k]
    {
      ShiftedKey(t, 0, k);
      assert Shift(k, -0) == k;
    }
  }

  /** Shifting moves the highest zoom by the same amount. */
  lemma ShiftMaxLevel(t: map<TileKey, Blob>, d: int)
    requires t != map[]
    ensures ShiftLevels(t, d) != map[] && MaxLevel(ShiftLevels(t, d)) == MaxLevel(t) + d
  {
    var s := ShiftLevels(t, d);
    var k :| k in t && k.level == MaxLevel(t);
    ShiftedKey(t, d, Shift(k, d));
    assert Shift(Shift(k, d), -d) == k;
    var m := MaxLevel(s);
    var j :| j in s && j.level == m;
    ShiftedKey(t, d, j);
  }

  /** Adding d coarse levels and then dropping them again restores the table:
      the tiles a pyramid gains on top (`extra`, all below zoom d after the
      shift) are exactly the ones the drop removes. */
  lemma AddThenDropLevels(t: map<TileKey, Blob>, extra: map<TileKey, Blob>, d: int)
    requires d >= 0 && LevelsAtLeast(t, 0) && LevelsBelow(extra, d)
    ensures ShiftLevels(DropBelow(ShiftLevels(t, d) + extra, d), -d) == t
  {
    var back := ShiftLevels(DropBelow(ShiftLevels(t, d) + extra, d), -d);
    forall k {:trigger k in back}
      ensures k in back <==> k in t
      ensures k in back ==> back[k] == t[k]
    {
      AddThenDropKey(t, extra, d, k);
    }
  }

  lemma AddThenDropKey(t: map<TileKey, Blob>, extra: map<TileKey, Blob>, d: int, k: TileKey)
    requires d >= 0 && LevelsAtLeast(t, 0) && LevelsBelow(extra, d)
    ensures var back := ShiftLevels(DropBelow(ShiftLevels(t, d) + extra, d), -d);
      (k in back <==> k in t) && (k in back ==> back[k] == t[k])
  {
    var shifted := ShiftLevels(t, d);
    var kept := DropBelow(shifted + extra, d);
    var up := Shift(k, d);
    ShiftedKey(kept, -d, k);
    assert Shift(k, --d) == up;
    ShiftedKey(t, d, up);
    assert Shift(up, -d) == k;
  }

  lemma ShiftRaises(t: map<TileKey, Blob>, n: int, d: int)
    requires LevelsAtLeast(t, n)
    ensures LevelsAtLeast(ShiftLevels(t, d), n + d)
  {
    forall k | k in ShiftLevels(t, d)
      ensures k.level >= n + d
    {
      ShiftedKey(t, d, k);
    }
  }

  /** Dropping the levels below n removes exactly the rows added below n. */
  lemma DropAdded(a: map<TileKey, Blob>, extra: map<TileKey, Blob>, n: int)
    requires LevelsAtLeast(a, n) && LevelsBelow(extra, n)
    ensures DropBelow(a + extra, n) == a
  {
    var kept := DropBelow(a + extra, n);
    assert forall k :: k in kept <==> k in a;
  }

  /** How SQLite runs `UPDATE tiles SET zoom_level=zoom_level+d`: one row at
      a time in rowid order, checking the unique index on (zoom_level,
      tile_column, tile_row) as each row changes. `keys` are the rows' keys
      in rowid order with the rows before i already moved; moving a row onto
      a key another row holds raises IntegrityError (Conflict). */
  function UpdateRows(keys: seq<TileKey>, i: nat, d: int): (r: Result<seq<TileKey>>)
    requires i <= |keys|
    ensures r.Ok? ==> |r.value| == |keys|
    decreases |keys| - i
  {
    if i == |keys| then Ok(keys)
    else
      var k := Shift(keys[i], d);
      if k != keys[i] && k in keys then Err(Conflict)
      else UpdateRows(keys[i := k], i + 1, d)
  }

  /** The keys of all rows moved by d at once. */
  function ShiftAll(keys: seq<TileKey>, d: int): (r: seq<TileKey>)
    ensures |r| == |keys| && forall j :: 0 <= j < |keys| ==> r[j] == Shift(keys[j], d)
  {
    seq(|keys|, j requires 0 <= j < |keys| => Shift(keys[j], d))
  }

  /** Rows of a table: no key twice. */
  predicate Distinct(keys: seq<TileKey>) {
    forall a, b :: 0 <= a < b < |keys| ==> keys[a] != keys[b]
  }

  /** The order `resume` writes rows in: finer zooms first. */
  predicate FinestFirst(keys: seq<TileKey>) {
    forall a, b :: 0 <= a < b < |keys| ==> keys[a].level >= keys[b].level
  }

  predicate CoarsestFirst(keys: seq<TileKey>) {
    forall a, b :: 0 <= a < b < |keys| ==> keys[a].level <= keys[b].level
  }

  /** The simultaneous shift describes the row-by-row UPDATE when the rows
      are visited finest first for a move up, or coarsest first for a move
      down: no row is then moved onto a row still waiting to move. */
  lemma UpdateRowsAgree(keys: seq<TileKey>, d: int)
    requires Distinct(keys)
    requires (d > 0 && FinestFirst(keys)) || (d < 0 && CoarsestFirst(keys))
    ensures UpdateRows(keys, 0, d) == Ok(ShiftAll(keys, d))
  {
    assert ShiftAll(keys, d)[..0] + keys[0..] == keys;
    UpdateRowsFrom(keys, 0, d);
  }

  lemma {:induction false} UpdateRowsFrom(keys: seq<TileKey>, i: nat, d: int)
    requires Distinct(keys) && i <= |keys|
    requires (d > 0 && FinestFirst(keys)) || (d < 0 && CoarsestFirst(keys))
    ensures UpdateRows(ShiftAll(keys, d)[..i] + keys[i..], i, d) == Ok(ShiftAll(keys, d))
    decreases |keys| - i
  {
    var s := ShiftAll(keys, d);
    var cur := s[..i] + keys[i..];
    if i == |keys| {
      assert cur == s;
    } else {
      var k := Shift(keys[i], d);
      forall j | 0 <= j < |cur|
        ensures cur[j] != k
      {
        if j < i {
          assert cur[j] == Shift(keys[j], d) && keys[j] != keys[i];
        } else {
          assert cur[j] == keys[j];
        }
      }
      assert cur[i := k] == s[..i + 1] + keys[i + 1..];
      UpdateRowsFrom(keys, i + 1, d);
    }
  }

  /** Row a moves onto the key of a later row b, which has not moved yet:
      the UPDATE fails, at row a or before it. */
  lemma {:induction false} UpdateRowsCollide(keys: seq<TileKey>, i: nat, d: int, a: nat, b: nat)
    requires i <= a < b < |keys| && d != 0 && Shift(keys[a], d) == keys[b]
    ensures UpdateRows(keys, i, d) == Err(Conflict)
    decreases a - i
  {
    var k := Shift(keys[i], d);
    if i < a && !(k != keys[i] && k in keys) {
      UpdateRowsCollide(keys[i := k], i + 1, d, a, b);
    }
  }

  /** Moving a table stored finest first down by n fails as soon as it holds
      a tile and, at the same column and row, the tile n levels below. */
  lemma DropUpdateCollides(keys: seq<TileKey>, n: int, a: nat, b: nat)
    requires n > 0 && FinestFirst(keys) && a < |keys| && b < |keys|
    requires keys[b] == Shift(keys[a], -n)
    ensures UpdateRows(keys, 0, -n) == Err(Conflict)
  {
    UpdateRowsCollide(keys, 0, -n, a, b);
  }

  /** The rows listed in `keys` moved all at once are the rows of the
      shifted table. */
  lemma ShiftAllKeys(t: map<TileKey, Blob>, keys: seq<TileKey>, d: int)
    requires forall k :: k in t <==> k in keys
    ensures forall k :: k in ShiftLevels(t, d) <==> k in ShiftAll(keys, d)
  {
    var s := ShiftAll(keys, d);
    forall k
      ensures k in ShiftLevels(t, d) <==> k in s
    {
      ShiftedKey(t, d, k);
      var j := Shift(k, -d);
      assert Shift(j, d) == k;
      if j in keys {
        var x :| 0 <= x < |keys| && keys[x] == j;
        assert s[x] == k;
      }
      if k in s {
        var x :| 0 <= x < |s| && s[x] == k;
        assert keys[x] == j;
      }
    }
  }
}
