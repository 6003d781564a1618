/** GDAL's `ReadRaster` returns a window band-sequentially (every pixel's red,
    then every pixel's green, ...); `_get_gdal_image` reorders those bytes into
    the pixel-interleaved layout PIL's `frombytes` expects (rrrgggbbb ->
    rgbrgbrgb). */
module Bands {
  import opened MbTypes
  import opened Arith

  /** `raw[start::step]`: every step-th byte from `start` to the end. */
  function Stride(raw: seq<byte>, start: nat, step: nat): seq<byte>
    requires step > 0
    decreases |raw| - start
  {
    if start >= |raw| then [] else [raw[start]] + Stride(raw, start + step, step)
  }

  /** The inner join of one row: `raw[x+w*y::w*h]` for x from `x` to w - 1. */
  function InterleaveRow(raw: seq<byte>, w: nat, h: nat, y: nat, x: nat): seq<byte>
    requires w > 0 && h > 0
    decreases w - x
  {
    if x >= w then [] else Stride(raw, x + w * y, w * h) + InterleaveRow(raw, w, h, y, x + 1)
  }

  /** The outer join: rows y to h - 1. */
  function InterleaveRows(raw: seq<byte>, w: nat, h: nat, y: nat): seq<byte>
    requires w > 0 && h > 0
    decreases h - y
  {
    if y >= h then [] else InterleaveRow(raw, w, h, y, 0) + InterleaveRows(raw, w, h, y + 1)
  }

  /** The conversion of `_get_gdal_image` for a w x h window; an empty window
      yields no bytes. */
  function Interleave(raw: seq<byte>, w: int, h: int): seq<byte> {
    if w <= 0 || h <= 0 then [] else InterleaveRows(raw, w, h, 0)
  }

  /** The inverse layout change: pixel-interleaved bytes of n pixels with
      `bands` bytes each back to band-sequential order. */
  function Deinterleave(data: seq<byte>, bands: nat, n: nat): (raw: seq<byte>)
    requires bands > 0 && n > 0 && |data| == bands * n
    ensures |raw| == |data|
  {
    seq(bands * n, j requires 0 <= j < bands * n => DeinterleaveAt(data, bands, n, j))
  }

  function DeinterleaveAt(data: seq<byte>, bands: nat, n: nat, j: nat): byte
    requires bands > 0 && n > 0 && |data| == bands * n && j < bands * n
  {
    DivBelow(j, n, bands);
    IndexFits(j % n, j / n, n, bands);
    data[(j % n) * bands + j / n]
  }

  /** Byte i of raw exists and is v. */
  ghost predicate ByteAt(raw: seq<byte>, i: int, v: byte) {
    0 <= i < |raw| && raw[i] == v
  }

  /** out holds `count` whole pixels of `bands` bytes, the first of which is
      pixel `base` of an n-pixel band-sequential `raw`: byte b of the i-th
      pixel is byte `base + i` of band b. */
  ghost predicate Interleaved(out: seq<byte>, raw: seq<byte>, n: nat, bands: nat, base: nat, count: nat)
    requires bands > 0
  {
    && |out| == bands * count
    && (forall i :: 0 <= i < |out| ==> ByteAt(raw, (i % bands) * n + base + i / bands, out[i]))
  }

  // Index arithmetic

  lemma DivBelow(j: int, n: int, bands: int)
    requires 0 <= j < bands * n && 0 < n && 0 < bands
    ensures 0 <= j / n < bands && 0 <= j % n < n
  {
    if j / n >= bands {
      MulLe(bands, j / n, n);
    }
  }

  lemma IndexFits(p: int, b: int, n: int, bands: int)
    requires 0 <= p < n && 0 <= b < bands
    ensures 0 <= p * bands + b < bands * n
  {
    MulLe(p + 1, n, bands);
  }

  /** Splitting an index past the first m pixels of an interleaved block. */
  lemma ShiftPixels(i: int, bands: int, m: int)
    requires 0 < bands && 0 <= m && bands * m <= i
    ensures (i - bands * m) % bands == i % bands
    ensures (i - bands * m) / bands == i / bands - m
  {
    var j := i - bands * m;
    DivModUnique(i, bands, m + j / bands, j % bands);
  }

  // The conversion is a fixed permutation of the raw bytes

  lemma {:induction false} StrideBands(raw: seq<byte>, q: nat, n: nat, bands: nat, k: nat, start: nat)
    requires q < n && |raw| == bands * n && k <= bands && start == q + k * n
    decreases bands - k
    ensures |Stride(raw, start, n)| == bands - k
    ensures forall j :: 0 <= j < bands - k ==> ByteAt(raw, (k + j) * n + q, Stride(raw, start, n)[j])
  {
    if k < bands {
      MulLt(k, bands, n);
      assert (k + 1) * n == k * n + n;
      StrideBands(raw, q, n, bands, k + 1, start + n);
      var s := Stride(raw, start, n);
      forall j | 0 <= j < bands - k
        ensures ByteAt(raw, (k + j) * n + q, s[j])
      {
        if j > 0 {
          assert (k + 1 + (j - 1)) == k + j;
        }
        MulLt(k + j, bands, n);
      }
    } else {
      assert start >= |raw|;
    }
  }

  lemma StridePixel(raw: seq<byte>, q: nat, n: nat, bands: nat)
    requires bands > 0 && q < n && |raw| == bands * n
    ensures Interleaved(Stride(raw, q, n), raw, n, bands, q, 1)
  {
    StrideBands(raw, q, n, bands, 0, q);
    forall i | 0 <= i < bands
      ensures i % bands == i && i / bands == 0
    {
      DivModUnique(i, bands, 0, i);
    }
  }

  lemma InterleavedConcat(a: seq<byte>, b: seq<byte>, raw: seq<byte>, n: nat, bands: nat, base: nat, m: nat, k: nat)
    requires bands > 0
    requires Interleaved(a, raw, n, bands, base, m) && Interleaved(b, raw, n, bands, base + m, k)
    ensures Interleaved(a + b, raw, n, bands, base, m + k)
  {
    var s := a + b;
    assert |s| == bands * (m + k);
    forall i | 0 <= i < |s|
      ensures ByteAt(raw, (i % bands) * n + base + i / bands, s[i])
    {
      if i >= |a| {
        ShiftPixels(i, bands, m);
        assert s[i] == b[i - bands * m];
      }
    }
  }

  lemma {:induction false} RowInterleaved(raw: seq<byte>, w: nat, h: nat, y: nat, x: nat, bands: nat)
    requires w > 0 && h > 0 && bands > 0 && |raw| == bands * (w * h)
    requires y < h && x <= w
    decreases w - x
    ensures Interleaved(InterleaveRow(raw, w, h, y, x), raw, w * h, bands, x + w * y, w - x)
  {
    if x < w {
      MulLt(y, h, w);
      assert x + w * y < w * h by { assert w * y == y * w; assert w * h == h * w; }
      StridePixel(raw, x + w * y, w * h, bands);
      RowInterleaved(raw, w, h, y, x + 1, bands);
      InterleavedConcat(Stride(raw, x + w * y, w * h), InterleaveRow(raw, w, h, y, x + 1),
                        raw, w * h, bands, x + w * y, 1, w - x - 1);
    }
  }

  /** Rows y to h - 1 of the conversion lay out the `count` = w * (h - y)
      pixels from pixel `base` = w * y of an n = w * h pixel window. */
  lemma {:induction false} RowsInterleaved(raw: seq<byte>, w: nat, h: nat, y: nat, bands: nat,
                                           n: nat, base: nat, count: nat)
    requires w > 0 && h > 0 && bands > 0 && |raw| == bands * n && n == w * h
    requires y <= h && base == w * y && count == w * (h - y)
    decreases h - y
    ensures Interleaved(InterleaveRows(raw, w, h, y), raw, n, bands, base, count)
  {
    if y < h {
      RowsArith(w, h, y);
      var more := w * (h - (y + 1));
      RowsInterleaved(raw, w, h, y + 1, bands, n, base + w, more);
      RowsStep(raw, w, h, y, bands, n, base, more);
    } else {
      assert count == 0;
    }
  }

  /** Row y followed by the rows above it, once those are laid out; n is
      w * h, row y starts at pixel base = w * y and `more` pixels follow it. */
  lemma RowsStep(raw: seq<byte>, w: nat, h: nat, y: nat, bands: nat, n: nat, base: nat, more: nat)
    requires w > 0 && h > 0 && bands > 0 && |raw| == bands * n && n == w * h
    requires y < h && base == w * y
    requires Interleaved(InterleaveRows(raw, w, h, y + 1), raw, n, bands, base + w, more)
    ensures Interleaved(InterleaveRows(raw, w, h, y), raw, n, bands, base, w + more)
  {
    RowInterleaved(raw, w, h, y, 0, bands);
    InterleavedConcat(InterleaveRow(raw, w, h, y, 0), InterleaveRows(raw, w, h, y + 1), raw, n, bands, base, w, more);
  }

  lemma RowsArith(w: nat, h: nat, y: nat)
    requires y < h
    ensures w * (y + 1) == w * y + w
    ensures w * (h - y) == w + w * (h - (y + 1)) && w * (h - (y + 1)) >= 0
  {
    var k := h - (y + 1);
    assert w * (k + 1) == w * k + w;
    MulLe(0, k, w);
    assert k * w == w * k;
  }

  /** For a `bands`-band w x h window read whole, the conversion keeps every
      byte: byte b of pixel p of the output is byte p of band b of the input. */
  lemma InterleaveLayout(raw: seq<byte>, w: int, h: int, bands: nat)
    requires w > 0 && h > 0 && bands > 0 && |raw| == bands * (w * h)
    ensures |Interleave(raw, w, h)| == |raw|
    ensures forall i :: 0 <= i < |raw| ==> ByteAt(raw, (i % bands) * (w * h) + i / bands, Interleave(raw, w, h)[i])
  {
    RowsInterleaved(raw, w, h, 0, bands, w * h, 0, w * h);
  }

  /** Reading the interleaved bytes back band by band gives the raw window. */
  lemma DeinterleaveInterleave(raw: seq<byte>, w: int, h: int, bands: nat)
    requires w > 0 && h > 0 && bands > 0 && |raw| == bands * (w * h)
    ensures |Interleave(raw, w, h)| == |raw|
    ensures Deinterleave(Interleave(raw, w, h), bands, w * h) == raw
  {
    var n := w * h;
    var out := Interleave(raw, w, h);
    InterleaveLayout(raw, w, h, bands);
    var back := Deinterleave(out, bands, n);
    forall j | 0 <= j < |raw|
      ensures back[j] == raw[j]
    {
      DivBelow(j, n, bands);
      var p, b := j % n, j / n;
      var i := p * bands + b;
      IndexFits(p, b, n, bands);
      DivModUnique(i, bands, p, b);
      DivModUnique(j, n, b, p);
    }
  }

  /** Interleaving a band-sequential copy of pixel-interleaved bytes restores them. */
  lemma InterleaveDeinterleave(data: seq<byte>, w: int, h: int, bands: nat)
    requires w > 0 && h > 0 && bands > 0 && |data| == bands * (w * h)
    ensures Interleave(Deinterleave(data, bands, w * h), w, h) == data
  {
    var n := w * h;
    var raw := Deinterleave(data, bands, n);
    InterleaveLayout(raw, w, h, bands);
    var out := Interleave(raw, w, h);
    forall i | 0 <= i < |data|
      ensures out[i] == data[i]
    {
      DeinterleaveBack(data, bands, n, i);
    }
  }

  /** Byte i of pixel-interleaved data is band i % bands of pixel i / bands,
      which Deinterleave puts at (i % bands) * n + i / bands. */
  lemma DeinterleaveBack(data: seq<byte>, bands: nat, n: nat, i: int)
    requires bands > 0 && n > 0 && |data| == bands * n && 0 <= i < |data|
    ensures 0 <= (i % bands) * n + i / bands < |data|
    ensures Deinterleave(data, bands, n)[(i % bands) * n + i / bands] == data[i]
  {
    BackIndex(i, bands, n);
  }

  /** Index i of the interleaved bytes goes to j = (i % bands) * n + i / bands
      in band order, and DeinterleaveAt reads j back from index i. */
  lemma BackIndex(i: int, bands: int, n: int)
    requires 0 < bands && 0 < n && 0 <= i < bands * n
    ensures 0 <= (i % bands) * n + i / bands < bands * n
    ensures var j := (i % bands) * n + i / bands; (j % n) * bands + j / n == i
  {
    var b, p := i % bands, i / bands;
    DivBelow(i, bands, n);
    PixelIndex(b, p, bands, n);
    assert p * bands + b == i;
  }

  /** Band b of pixel p is at b * n + p in band order and at p * bands + b
      interleaved. */
  lemma PixelIndex(b: int, p: int, bands: int, n: int)
    requires 0 <= b < bands && 0 <= p < n
    ensures 0 <= b * n + p < bands * n
    ensures ((b * n + p) % n) * bands + (b * n + p) / n == p * bands + b
  {
    MulLe(b + 1, bands, n);
    DivModUnique(b * n + p, n, b, p);
  }
}
