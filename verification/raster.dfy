/** Shared vocabulary of every flip variant: bytes, rows, images, and the
    reference definitions the flips are proved against. */
module Raster {

  type Byte = bv8

  /** One row of a 24-bit BMP: `Hpixels` B,G,R triples followed by padding. */
  type Row = seq<Byte>

  /** An image as its sequence of rows, in the order they are stored. */
  type Image = seq<Row>


  /** Reference vertical mirror: position `i` of the result holds position `|s|-1-i`. */
  function ReverseRows<T>(s: seq<T>): (r: seq<T>)
    ensures |r| == |s|
  {
    seq(|s|, i requires 0 <= i < |s| => s[|s| - 1 - i])
  }

  /** The mirror pairs `(r, |s|-1-r)` with `lo <= r < hi` swapped, every other row kept.
      A swap loop that has handled the pairs of `[lo, hi)` leaves exactly this. */
  function MirrorSpan<T>(s: seq<T>, lo: nat, hi: nat): (r: seq<T>)
    requires lo <= hi <= |s| / 2
    ensures |r| == |s|
  {
    seq(|s|, i requires 0 <= i < |s| =>
      if lo <= i < hi || lo <= |s| - 1 - i < hi then s[|s| - 1 - i] else s[i])
  }

  /** Swapping positions `i` and `j` of a sequence. */
  function Swap<T>(s: seq<T>, i: nat, j: nat): (r: seq<T>)
    requires i < |s| && j < |s|
    ensures |r| == |s|
  {
    s[i := s[j]][j := s[i]]
  }

  /** Swapping one more pair extends a span of swapped pairs by one. */
  lemma MirrorSpanGrow<T>(s: seq<T>, lo: nat, hi: nat, cur: seq<T>)
    requires lo <= hi < |s| / 2
    requires cur == MirrorSpan(s, lo, hi)
    ensures Swap(cur, hi, |s| - 1 - hi) == MirrorSpan(s, lo, hi + 1)
  {
  }

  /** Swapping every pair below the middle is the full vertical mirror;
      for odd lengths the middle row is its own mirror. */
  lemma MirrorSpanHalf<T>(s: seq<T>)
    ensures MirrorSpan(s, 0, |s| / 2) == ReverseRows(s)
  {
  }

  lemma ReverseRowsInvolution<T>(s: seq<T>)
    ensures ReverseRows(ReverseRows(s)) == s
  {
  }

  /** Each row's first `w` bytes taken from its mirror row, the rest kept:
      what a column-by-column or `memcpy` vertical flip of `w` bytes per row leaves. */
  function SwapPrefixRows(img: Image, w: nat): (r: Image)
    requires forall k :: 0 <= k < |img| ==> w <= |img[k]|
    ensures |r| == |img|
    ensures forall k :: 0 <= k < |r| ==> |r[k]| == |img[k]|
  {
    seq(|img|, k requires 0 <= k < |img| => img[|img| - 1 - k][..w] + img[k][w..])
  }

  /** Rows that are exactly `w` bytes wide are mirrored whole. */
  lemma SwapPrefixRowsWhole(img: Image, w: nat)
    requires forall k :: 0 <= k < |img| ==> |img[k]| == w
    ensures SwapPrefixRows(img, w) == ReverseRows(img)
  {
    var r := SwapPrefixRows(img, w);
    forall k | 0 <= k < |img|
      ensures r[k] == img[|img| - 1 - k]
    {
      assert img[|img| - 1 - k][..w] == img[|img| - 1 - k];
      assert img[k][w..] == [];
    }
  }

  lemma SwapPrefixRowsInvolution(img: Image, w: nat)
    requires forall k :: 0 <= k < |img| ==> w <= |img[k]|
    ensures SwapPrefixRows(SwapPrefixRows(img, w), w) == img
  {
    var once := SwapPrefixRows(img, w);
    var twice := SwapPrefixRows(once, w);
    forall k | 0 <= k < |img|
      ensures twice[k] == img[k]
    {
      var m := |img| - 1 - k;
      SpliceTwice(img[k], img[m], w);
    }
  }

  /** Splicing `w` bytes between two rows twice gives the first row back. */
  lemma SpliceTwice(x: Row, y: Row, w: nat)
    requires w <= |x| && w <= |y|
    ensures (x[..w] + y[w..])[..w] + (y[..w] + x[w..])[w..] == x
  {
    SpliceParts(x[..w], y[w..], w);
    SpliceParts(y[..w], x[w..], w);
    assert x == x[..w] + x[w..];
  }

  lemma SpliceParts<T>(a: seq<T>, b: seq<T>, w: nat)
    requires |a| == w
    ensures (a + b)[..w] == a && (a + b)[w..] == b
  {
  }

  /** Reference horizontal mirror of one row: the 3-byte pixels of the first
      `3 * hp` bytes in reverse order, byte order inside a pixel kept,
      padding bytes kept. */
  function MirrorPixels(row: Row, hp: nat): (r: Row)
    requires 3 * hp <= |row|
    ensures |r| == |row|
  {
    seq(|row|, c requires 0 <= c < |row| =>
      if c < 3 * hp then row[3 * (hp - 1 - c / 3) + c % 3] else row[c])
  }

  /** Byte `k` of pixel `p` lands as byte `k` of pixel `hp-1-p`; in particular the
      G byte at `col + 1` moves to `3 * hp - (col + 2)`. Padding is unchanged. */
  lemma MirrorPixelsMoves(row: Row, hp: nat, p: nat, k: nat)
    requires 3 * hp <= |row| && p < hp && k < 3
    ensures MirrorPixels(row, hp)[3 * (hp - 1 - p) + k] == row[3 * p + k]
    ensures k == 1 ==> MirrorPixels(row, hp)[3 * hp - (3 * p + 2)] == row[3 * p + 1]
    ensures forall c :: 3 * hp <= c < |row| ==> MirrorPixels(row, hp)[c] == row[c]
  {
    var c := 3 * (hp - 1 - p) + k;
    assert c / 3 == hp - 1 - p && c % 3 == k;
  }

  lemma MirrorPixelsInvolution(row: Row, hp: nat)
    requires 3 * hp <= |row|
    ensures MirrorPixels(MirrorPixels(row, hp), hp) == row
  {
    var once := MirrorPixels(row, hp);
    var twice := MirrorPixels(once, hp);
    forall c | 0 <= c < |row|
      ensures twice[c] == row[c]
    {
      if c < 3 * hp {
        var d := 3 * (hp - 1 - c / 3) + c % 3;
        assert d / 3 == hp - 1 - c / 3 && d % 3 == c % 3;
        assert 3 * (hp - 1 - d / 3) + d % 3 == c;
      }
    }
  }

  /** Every row mirrored horizontally; row order kept. */
  function MirrorEachRow(img: Image, hp: nat): (r: Image)
    requires forall k :: 0 <= k < |img| ==> 3 * hp <= |img[k]|
    ensures |r| == |img|
    ensures forall k :: 0 <= k < |r| ==> |r[k]| == |img[k]|
  {
    seq(|img|, k requires 0 <= k < |img| => MirrorPixels(img[k], hp))
  }

  lemma MirrorEachRowInvolution(img: Image, hp: nat)
    requires forall k :: 0 <= k < |img| ==> 3 * hp <= |img[k]|
    ensures MirrorEachRow(MirrorEachRow(img, hp), hp) == img
  {
    forall k | 0 <= k < |img|
      ensures MirrorEachRow(MirrorEachRow(img, hp), hp)[k] == img[k]
    {
      MirrorPixelsInvolution(img[k], hp);
    }
  }

  /** The flat buffer holding the rows one after another. */
  function Flatten<T>(rows: seq<seq<T>>): (flat: seq<T>)
  {
    if |rows| == 0 then [] else Flatten(rows[..|rows| - 1]) + rows[|rows| - 1]
  }

  predicate Uniform<T>(rows: seq<seq<T>>, h: nat)
  {
    forall k :: 0 <= k < |rows| ==> |rows[k]| == h
  }

  lemma {:induction false} FlattenAppend<T>(a: seq<seq<T>>, b: seq<seq<T>>)
    ensures Flatten(a + b) == Flatten(a) + Flatten(b)
    decreases |b|
  {
    if |b| > 0 {
      assert (a + b)[..|a + b| - 1] == a + b[..|b| - 1];
      FlattenAppend(a, b[..|b| - 1]);
    } else {
      assert a + b == a;
    }
  }

  lemma {:induction false} FlattenLength<T>(rows: seq<seq<T>>, h: nat)
    requires Uniform(rows, h)
    ensures |Flatten(rows)| == |rows| * h
    decreases |rows|
  {
    if |rows| > 0 {
      FlattenLength(rows[..|rows| - 1], h);
    }
  }

  /** Offset of byte `c` of row `r` in a buffer of `h`-byte rows. */
  function Offset(r: nat, h: nat, c: nat): (off: nat)
  {
    r * h + c
  }

  /** Byte `c` of row `r` sits at offset `r * h + c` of the flat buffer of stride `h`:
      the addressing `img[row * Hbytes + col]` of the 1-D variants. */
  lemma {:induction false} FlattenIndex<T>(rows: seq<seq<T>>, h: nat, r: nat, c: nat)
    requires Uniform(rows, h) && r < |rows| && c < h
    ensures r * h + c < |Flatten(rows)|
    ensures Flatten(rows)[r * h + c] == rows[r][c]
    decreases |rows|
  {
    var init := rows[..|rows| - 1];
    var last := rows[|rows| - 1];
    assert Flatten(rows) == Flatten(init) + last;
    FlattenLength(init, h);
    if r < |init| {
      MulStep(r, |init|, h);
      FlattenIndex(init, h, r, c);
    } else {
      assert r * h == |Flatten(init)|;
    }
  }

  /** Row `r` of a stride-`h` buffer ends no later than row `n` starts, for `r < n`. */
  lemma {:induction false} MulStep(r: nat, n: nat, h: nat)
    requires r <= n
    ensures r < n ==> r * h + h <= n * h
    ensures r * h <= n * h
    decreases n - r
  {
    if r < n {
      MulStep(r + 1, n, h);
      assert (r + 1) * h == r * h + h;
    }
  }

  lemma Distrib(x: nat, y: nat, h: nat)
    ensures (x + y) * h == x * h + y * h
  {
  }

  /** The bytes of rows `[a, b)` are the flat slice `[a * h, b * h)`. */
  lemma {:induction false} FlattenSlice<T>(rows: seq<seq<T>>, h: nat, a: nat, b: nat)
    requires Uniform(rows, h) && a <= b <= |rows|
    ensures 0 <= a * h <= b * h <= |Flatten(rows)|
    ensures Flatten(rows)[a * h .. b * h] == Flatten(rows[a..b])
  {
    var pre, mid, post := rows[..a], rows[a..b], rows[b..];
    assert rows == pre + mid + post;
    FlattenAppend(pre + mid, post);
    FlattenAppend(pre, mid);
    FlattenLength(pre, h);
    FlattenLength(mid, h);
    FlattenLength(post, h);
    var lo, hi := |Flatten(pre)|, |Flatten(pre)| + |Flatten(mid)|;
    assert Flatten(rows) == Flatten(pre) + Flatten(mid) + Flatten(post);
    assert Flatten(rows)[lo..hi] == Flatten(mid);
    Distrib(a, b - a, h);
    assert lo == a * h && hi == b * h;
  }
}
