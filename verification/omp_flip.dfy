/** The four flips of the OpenMP program, over an image held as one buffer per row.
    The `parallel for` loops touch disjoint rows or row pairs per iteration, so they
    are modelled by their sequential loops. */
module OmpFlip {
  import opened Raster
  import PixelSwap

  /** Size of the stack buffers of the multi-threaded flips. */
  const ROW_BUFFER := 16384

  /** Every row holds at least `w` bytes. */
  predicate RowsHold(img: Image, w: nat)
  {
    forall k :: 0 <= k < |img| ==> w <= |img[k]|
  }

  /** The columns `FlipVertical` writes: `col` runs `0, 3, 6, ...` while `col < Hbytes`
      and each pass writes `col`, `col + 1` and `col + 2`. */
  function ColumnsTouched(h: nat): (w: nat)
    ensures w % 3 == 0 && h <= w < h + 3
  {
    (h + 2) / 3 * 3
  }

  /** A vertical column sweep in progress: the pairs with top row below `k` have their
      first `w2` bytes exchanged, every other pair its first `w` bytes. */
  function SwapPrefixPairs(img: Image, w: nat, w2: nat, k: nat): (r: Image)
    requires RowsHold(img, w) && RowsHold(img, w2)
    ensures |r| == |img|
  {
    seq(|img|, i requires 0 <= i < |img| =>
      var ww := if i < k || |img| - 1 - i < k then w2 else w;
      img[|img| - 1 - i][..ww] + img[i][ww..])
  }

  lemma PairsStart(img: Image, w: nat, w2: nat)
    requires RowsHold(img, w) && RowsHold(img, w2)
    ensures SwapPrefixPairs(img, w, w2, 0) == SwapPrefixRows(img, w)
  {
  }

  /** Once every pair is done the sweep has reached `w2` on every row; the middle row
      of an odd image is its own mirror. */
  lemma PairsDone(img: Image, w: nat, w2: nat)
    requires RowsHold(img, w) && RowsHold(img, w2)
    ensures SwapPrefixPairs(img, w, w2, |img| / 2) == SwapPrefixRows(img, w2)
  {
    var a := SwapPrefixPairs(img, w, w2, |img| / 2);
    var b := SwapPrefixRows(img, w2);
    forall i | 0 <= i < |img|
      ensures a[i] == b[i]
    {
      PairDoneAt(img, w, w2, i);
    }
  }

  lemma PairDoneAt(img: Image, w: nat, w2: nat, i: nat)
    requires RowsHold(img, w) && RowsHold(img, w2) && i < |img|
    ensures SwapPrefixPairs(img, w, w2, |img| / 2)[i] == SwapPrefixRows(img, w2)[i]
  {
    var m := |img| - 1 - i;
    if i == m {
      Unsplit(img[i], w);
      Unsplit(img[i], w2);
    } else {
      assert i < |img| / 2 || m < |img| / 2;
    }
  }

  /** A sweep that has not started has changed nothing. */
  lemma NoPrefix(img: Image)
    ensures SwapPrefixRows(img, 0) == img
  {
    forall k | 0 <= k < |img|
      ensures SwapPrefixRows(img, 0)[k] == img[k]
    {
      assert img[k][0..] == img[k];
    }
  }

  lemma RowsHoldLess(img: Image, a: nat, b: nat)
    requires a <= b && RowsHold(img, b)
    ensures RowsHold(img, a)
  {
  }

  lemma Unsplit(x: Row, w: nat)
    requires w <= |x|
    ensures x[..w] + x[w..] == x
  {
  }

  /** The middle row of an odd-height image is its own mirror, so the sweep leaves it as
      it was. */
  lemma MiddleRowKept(img: Image, w: nat)
    requires RowsHold(img, w) && |img| % 2 == 1
    ensures SwapPrefixRows(img, w)[|img| / 2] == img[|img| / 2]
  {
    Unsplit(img[|img| / 2], w);
  }

  /** Three more bytes of a pair exchanged: `x` and `y` are the two original rows. */
  lemma SpliceGrow3(x: Row, y: Row, w: nat)
    requires w + 3 <= |x| && w + 3 <= |y|
    ensures (y[..w] + x[w..])[w := y[w]][w + 1 := y[w + 1]][w + 2 := y[w + 2]] == y[..w + 3] + x[w + 3..]
  {
  }

  /** One more byte of a pair exchanged. */
  lemma SpliceGrow1(x: Row, y: Row, w: nat)
    requires w + 1 <= |x| && w + 1 <= |y|
    ensures (y[..w] + x[w..])[w := y[w]] == y[..w + 1] + x[w + 1..]
  {
  }

  /** The pair with top row `k` advanced from `w` to `w2` bytes gives the next sweep state. */
  lemma PairAdvance(img: Image, w: nat, w2: nat, k: nat, cur: Image, top: Row, bottom: Row)
    requires RowsHold(img, w) && RowsHold(img, w2) && k < |img| / 2
    requires cur == SwapPrefixPairs(img, w, w2, k)
    requires top == img[|img| - 1 - k][..w2] + img[k][w2..]
    requires bottom == img[k][..w2] + img[|img| - 1 - k][w2..]
    ensures cur[k := top][|img| - 1 - k := bottom] == SwapPrefixPairs(img, w, w2, k + 1)
  {
  }

  /** One trip through the inner loop of `FlipVertical`: three bytes of row `k` and of
      its mirror exchanged. */
  lemma SweepStep3(img: Image, col: nat, k: nat, cur: Image)
    requires RowsHold(img, col + 3) && k < |img| / 2
    requires cur == SwapPrefixPairs(img, col, col + 3, k)
    ensures
      var m := |img| - 1 - k;
      cur[k := cur[k][col := cur[m][col]][col + 1 := cur[m][col + 1]][col + 2 := cur[m][col + 2]]]
         [m := cur[m][col := cur[k][col]][col + 1 := cur[k][col + 1]][col + 2 := cur[k][col + 2]]]
      == SwapPrefixPairs(img, col, col + 3, k + 1)
  {
    var m := |img| - 1 - k;
    var x, y := img[k], img[m];
    assert cur[k] == y[..col] + x[col..];
    assert cur[m] == x[..col] + y[col..];
    SpliceGrow3(x, y, col);
    SpliceGrow3(y, x, col);
    PairAdvance(img, col, col + 3, k, cur,
      cur[k][col := cur[m][col]][col + 1 := cur[m][col + 1]][col + 2 := cur[m][col + 2]],
      cur[m][col := cur[k][col]][col + 1 := cur[k][col + 1]][col + 2 := cur[k][col + 2]]);
  }

  /** One trip through the inner loop of the byte-wise sweep. */
  lemma SweepStep1(img: Image, col: nat, k: nat, cur: Image)
    requires RowsHold(img, col + 1) && k < |img| / 2
    requires cur == SwapPrefixPairs(img, col, col + 1, k)
    ensures
      var m := |img| - 1 - k;
      cur[k := cur[k][col := cur[m][col]]][m := cur[m][col := cur[k][col]]]
      == SwapPrefixPairs(img, col, col + 1, k + 1)
  {
    var m := |img| - 1 - k;
    var x, y := img[k], img[m];
    assert cur[k] == y[..col] + x[col..];
    assert cur[m] == x[..col] + y[col..];
    SpliceGrow1(x, y, col);
    SpliceGrow1(y, x, col);
    PairAdvance(img, col, col + 1, k, cur, cur[k][col := cur[m][col]], cur[m][col := cur[k][col]]);
  }

  /** One trip through the loop of `FlipVerticalMultiThreaded`: `h` bytes of row `k` and
      of its mirror exchanged through the buffers. */
  lemma SweepStepRow(img: Image, h: nat, k: nat, cur: Image)
    requires RowsHold(img, h) && k < |img| / 2
    requires cur == SwapPrefixPairs(img, 0, h, k)
    ensures cur[k] == img[k] && cur[|img| - 1 - k] == img[|img| - 1 - k]
    ensures RowsHold(cur, h) && Exchange(cur, h, k) == SwapPrefixPairs(img, 0, h, k + 1)
  {
    var m := |img| - 1 - k;
    var x, y := img[k], img[m];
    assert cur[k] == y[..0] + x[0..] == x;
    assert cur[m] == x[..0] + y[0..] == y;
    forall i | 0 <= i < |cur|
      ensures h <= |cur[i]|
    {
      assert |cur[i]| == |img[i]|;
    }
    PairAdvance(img, 0, h, k, cur, cur[m][..h] + cur[k][h..], cur[k][..h] + cur[m][h..]);
  }

  /** `FlipVertical`: for `col = 0, 3, 6, ...` while `col < Hbytes`, bytes `col .. col + 2`
      of every row `row < Vpixels / 2` exchanged with those of row `Vpixels - (row + 1)`.
      The last pass writes up to two bytes past `Hbytes`, so the rows must hold
      `ColumnsTouched(Hbytes)` bytes. */
  method FlipVertical(img: Image, h: nat) returns (out: Image)
    requires RowsHold(img, ColumnsTouched(h))
    ensures out == SwapPrefixRows(img, ColumnsTouched(h))
  {
    out := img;
    NoPrefix(img);
    var col := 0;
    ghost var j := 0;
    while col < h
      invariant col == 3 * j && j <= (h + 2) / 3
      invariant out == SwapPrefixRows(img, col)
    {
      ColumnGroups(h, j);
      RowsHoldLess(img, col + 3, ColumnsTouched(h));
      out := SweepColumn3(out, img, col);
      col, j := col + 3, j + 1;
    }
    ColumnGroups(h, j);
  }

  /** The outer loop of `FlipVertical` runs `ceil(Hbytes / 3)` times. */
  lemma ColumnGroups(h: nat, j: nat)
    requires j <= (h + 2) / 3
    ensures 3 * j < h ==> j + 1 <= (h + 2) / 3 && 3 * j + 3 <= ColumnsTouched(h)
    ensures 3 * j >= h ==> 3 * j == ColumnsTouched(h)
  {
  }

  /** The inner loop of `FlipVertical` for one column group `col .. col + 2`. */
  method SweepColumn3(cur: Image, ghost img: Image, col: nat) returns (out: Image)
    requires RowsHold(img, col + 3) && cur == SwapPrefixRows(img, col)
    ensures out == SwapPrefixRows(img, col + 3)
  {
    var v := |cur|;
    PairsStart(img, col, col + 3);
    out := cur;
    var row := 0;
    while row < v / 2
      invariant 0 <= row <= v / 2
      invariant out == SwapPrefixPairs(img, col, col + 3, row)
    {
      out := SwapPixel(out, img, col, row);
      row := row + 1;
    }
    PairsDone(img, col, col + 3);
  }

  /** One trip through the inner loop of `FlipVertical`: bytes `col .. col + 2` of row
      `row` and of its mirror exchanged through the temporary pixel. */
  method SwapPixel(cur: Image, ghost img: Image, col: nat, row: nat) returns (next: Image)
    requires RowsHold(img, col + 3) && row < |img| / 2
    requires cur == SwapPrefixPairs(img, col, col + 3, row)
    ensures next == SwapPrefixPairs(img, col, col + 3, row + 1)
  {
    var mirror := |cur| - (row + 1);
    SweepStep3(img, col, row, cur);
    var b, g, r := cur[row][col], cur[row][col + 1], cur[row][col + 2];
    var top := cur[row][col := cur[mirror][col]][col + 1 := cur[mirror][col + 1]][col + 2 := cur[mirror][col + 2]];
    var bottom := cur[mirror][col := b][col + 1 := g][col + 2 := r];
    next := cur[row := top][mirror := bottom];
  }

  /** A row width that is not a multiple of three makes `FlipVertical` write past the
      row: one pixel with four-byte stride touches columns 4 and 5. */
  lemma FlipVerticalOverrun(h: nat)
    ensures h % 3 != 0 <==> h < ColumnsTouched(h)
    ensures ColumnsTouched(4) == 6
  {
  }

  /** The column sweep one byte at a time, stopping at `Hbytes`. */
  method FlipVerticalInBounds(img: Image, h: nat) returns (out: Image)
    requires RowsHold(img, h)
    ensures out == SwapPrefixRows(img, h)
    ensures Uniform(img, h) ==> out == ReverseRows(img)
  {
    out := img;
    NoPrefix(img);
    var col := 0;
    while col < h
      invariant 0 <= col <= h
      invariant out == SwapPrefixRows(img, col)
    {
      RowsHoldLess(img, col + 1, h);
      out := SweepColumn1(out, img, col);
      col := col + 1;
    }
    if Uniform(img, h) {
      SwapPrefixRowsWhole(img, h);
    }
  }

  /** The inner loop of the byte-wise sweep for column `col`. */
  method SweepColumn1(cur: Image, ghost img: Image, col: nat) returns (out: Image)
    requires RowsHold(img, col + 1) && cur == SwapPrefixRows(img, col)
    ensures out == SwapPrefixRows(img, col + 1)
  {
    var v := |cur|;
    PairsStart(img, col, col + 1);
    out := cur;
    var row := 0;
    while row < v / 2
      invariant 0 <= row <= v / 2
      invariant out == SwapPrefixPairs(img, col, col + 1, row)
    {
      out := SwapByte(out, img, col, row);
      row := row + 1;
    }
    PairsDone(img, col, col + 1);
  }

  /** One trip through the inner loop of the byte-wise sweep: byte `col` of row `row` and
      of its mirror exchanged through a temporary. */
  method SwapByte(cur: Image, ghost img: Image, col: nat, row: nat) returns (next: Image)
    requires RowsHold(img, col + 1) && row < |img| / 2
    requires cur == SwapPrefixPairs(img, col, col + 1, row)
    ensures next == SwapPrefixPairs(img, col, col + 1, row + 1)
  {
    var mirror := |cur| - (row + 1);
    SweepStep1(img, col, row, cur);
    var b := cur[row][col];
    var top := cur[row][col := cur[mirror][col]];
    var bottom := cur[mirror][col := b];
    next := cur[row := top][mirror := bottom];
  }

  /** `FlipHorizontal`: the pixel loop on every row. */
  method FlipHorizontal(img: Image, hp: nat) returns (out: Image)
    requires RowsHold(img, 3 * hp)
    ensures out == MirrorEachRow(img, hp)
  {
    out := img;
    var row := 0;
    while row < |img|
      invariant 0 <= row <= |img| && |out| == |img|
      invariant forall k :: 0 <= k < row ==> out[k] == MirrorPixels(img[k], hp)
      invariant forall k :: row <= k < |img| ==> out[k] == img[k]
    {
      var flipped := PixelSwap.ReverseRowPixels(out[row], hp);
      out := out[row := flipped];
      row := row + 1;
    }
  }

  /** `FlipVerticalMultiThreaded`: for each `row < Vpixels / 2`, `Hbytes` bytes of the row
      and of its mirror copied through two stack buffers of `ROW_BUFFER` bytes. */
  method FlipVerticalMultiThreaded(img: Image, h: nat) returns (out: Image)
    requires h <= ROW_BUFFER && RowsHold(img, h)
    ensures out == SwapPrefixRows(img, h)
    ensures Uniform(img, h) ==> out == ReverseRows(img)
  {
    var v := |img|;
    out := img;
    PairsStart(img, 0, h);
    NoPrefix(img);
    var row := 0;
    while row < v / 2
      invariant 0 <= row <= v / 2
      invariant out == SwapPrefixPairs(img, 0, h, row)
    {
      SweepStepRow(img, h, row, out);
      out := ExchangeThroughBuffers(out, h, row);
      row := row + 1;
    }
    PairsDone(img, 0, h);
    if Uniform(img, h) {
      SwapPrefixRowsWhole(img, h);
    }
  }

  /** One iteration of the `parallel for` in `FlipVerticalMultiThreaded`, on whatever image
      the other iterations have left: the first `h` bytes of row `row` and of its mirror
      exchanged, every other row untouched. */
  function Exchange(cur: Image, h: nat, row: nat): (next: Image)
    requires RowsHold(cur, h) && row < |cur| / 2
    ensures |next| == |cur| && RowsHold(next, h)
    ensures forall k :: 0 <= k < |cur| ==> |next[k]| == |cur[k]|
    ensures forall k :: 0 <= k < |cur| && k != row && k != |cur| - 1 - row ==> next[k] == cur[k]
    ensures next[row][..h] == cur[|cur| - 1 - row][..h] && next[row][h..] == cur[row][h..]
    ensures next[|cur| - 1 - row][..h] == cur[row][..h]
    ensures next[|cur| - 1 - row][h..] == cur[|cur| - 1 - row][h..]
  {
    var m := |cur| - 1 - row;
    cur[row := cur[m][..h] + cur[row][h..]][m := cur[row][..h] + cur[m][h..]]
  }

  /** Two iterations of that `parallel for` touch disjoint row pairs, so they may run in
      either order. */
  lemma ExchangesCommute(cur: Image, h: nat, r1: nat, r2: nat)
    requires RowsHold(cur, h) && r1 < |cur| / 2 && r2 < |cur| / 2 && r1 != r2
    ensures Exchange(Exchange(cur, h, r1), h, r2) == Exchange(Exchange(cur, h, r2), h, r1)
  {
  }

  /** One iteration of the row loop: the first `Hbytes` bytes of row `row` and of its
      mirror copied out to the two buffers and written back crosswise. */
  method ExchangeThroughBuffers(cur: Image, h: nat, row: nat) returns (next: Image)
    requires RowsHold(cur, h) && row < |cur| / 2
    ensures next == Exchange(cur, h, row)
  {
    var buffer := cur[row][..h];
    var row2 := |cur| - (row + 1);
    var buffer2 := cur[row2][..h];
    next := cur[row := buffer2 + cur[row][h..]][row2 := buffer + cur[row2][h..]];
  }

  /** `FlipHorizontalMultiThreaded`: each row's first `Hbytes` bytes copied to a buffer,
      its pixels reversed there, and copied back. */
  method FlipHorizontalMultiThreaded(img: Image, hp: nat, h: nat) returns (out: Image)
    requires 3 * hp <= h <= ROW_BUFFER && RowsHold(img, h)
    ensures out == MirrorEachRow(img, hp)
  {
    out := img;
    var row := 0;
    while row < |img|
      invariant 0 <= row <= |img| && |out| == |img|
      invariant forall k :: 0 <= k < row ==> out[k] == MirrorPixels(img[k], hp)
      invariant forall k :: row <= k < |img| ==> out[k] == img[k]
      invariant RowsHold(out, h)
    {
      out := MirrorThroughBuffer(out, hp, h, row);
      row := row + 1;
    }
  }

  /** One iteration of the `parallel for` in `FlipHorizontalMultiThreaded`, on whatever
      image the other iterations have left: row `row` pixel-mirrored, every other row
      untouched. */
  function MirrorRowAt(cur: Image, hp: nat, row: nat): (next: Image)
    requires RowsHold(cur, 3 * hp) && row < |cur|
    ensures |next| == |cur| && next[row] == MirrorPixels(cur[row], hp)
    ensures forall k :: 0 <= k < |cur| ==> |next[k]| == |cur[k]|
    ensures forall k :: 0 <= k < |cur| && k != row ==> next[k] == cur[k]
  {
    cur[row := MirrorPixels(cur[row], hp)]
  }

  /** Two iterations of that `parallel for` touch different rows, so they may run in
      either order. */
  lemma MirrorRowsCommute(cur: Image, hp: nat, r1: nat, r2: nat)
    requires RowsHold(cur, 3 * hp) && r1 < |cur| && r2 < |cur| && r1 != r2
    ensures RowsHold(MirrorRowAt(cur, hp, r1), 3 * hp) && RowsHold(MirrorRowAt(cur, hp, r2), 3 * hp)
    ensures MirrorRowAt(MirrorRowAt(cur, hp, r1), hp, r2) == MirrorRowAt(MirrorRowAt(cur, hp, r2), hp, r1)
  {
  }

  /** One iteration of the row loop: the first `Hbytes` bytes copied to the buffer, its
      pixels reversed there, and copied back. */
  method MirrorThroughBuffer(cur: Image, hp: nat, h: nat, row: nat) returns (next: Image)
    requires 3 * hp <= h && RowsHold(cur, h) && row < |cur|
    ensures RowsHold(cur, 3 * hp) && next == MirrorRowAt(cur, hp, row)
  {
    var buffer := cur[row][..h];
    buffer := PixelSwap.ReverseRowPixels(buffer, hp);
    MirrorPrefix(cur[row], hp, h);
    next := cur[row := buffer + cur[row][h..]];
  }

  /** Mirroring the first `h` bytes and keeping the rest is mirroring the row. */
  lemma MirrorPrefix(row: Row, hp: nat, h: nat)
    requires 3 * hp <= h <= |row|
    ensures MirrorPixels(row[..h], hp) + row[h..] == MirrorPixels(row, hp)
  {
  }

  /** With `Hbytes` a multiple of three the column sweep and the buffered flip agree. */
  lemma VerticalVariantsAgree(img: Image, h: nat)
    requires h % 3 == 0 && RowsHold(img, h)
    ensures ColumnsTouched(h) == h
    ensures SwapPrefixRows(img, ColumnsTouched(h)) == SwapPrefixRows(img, h)
  {
  }
}
