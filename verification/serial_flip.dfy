/** The single-threaded flips of the pthread program, over an image of
    `Vpixels` rows of `Hbytes` bytes stored one after another. */
module SerialFlip {
  import opened Raster
  import opened Bmp
  import PixelSwap

  /** An image whose rows all have the header's stride. */
  predicate Fits(img: Image, ip: ImgProp)
  {
    ip.FromHeader() && |img| == ip.vpixels && Uniform(img, ip.hbytes)
  }

  /** `FlipImageV`: rows `row` and `Vpixels-row-1` exchanged through two row buffers,
      for `row < Vpixels / 2`. */
  method FlipImageV(img: Image, ip: ImgProp) returns (out: Image)
    requires Fits(img, ip)
    ensures Fits(out, ip)
    ensures out == ReverseRows(img)
  {
    out := img;
    var totalRows := ip.vpixels;
    var row := 0;
    while row < totalRows / 2
      invariant 0 <= row <= totalRows / 2
      invariant out == MirrorSpan(img, 0, row)
    {
      var row2 := totalRows - row - 1;
      var buffer := out[row];
      var buffer2 := out[row2];
      MirrorSpanGrow(img, 0, row, out);
      out := out[row := buffer2][row2 := buffer];
      row := row + 1;
    }
    MirrorSpanHalf(img);
  }

  /** After `k` trips through the loop, rows `[0, k)` and `[V-k, V)` hold their mirror
      rows and rows `[k, V-k)` are untouched. */
  lemma VerticalLoopInvariant(img: Image, k: nat)
    requires k <= |img| / 2
    ensures forall r :: 0 <= r < k ==> MirrorSpan(img, 0, k)[r] == img[|img| - 1 - r]
    ensures forall r :: |img| - k <= r < |img| ==> MirrorSpan(img, 0, k)[r] == img[|img| - 1 - r]
    ensures forall r :: k <= r < |img| - k ==> MirrorSpan(img, 0, k)[r] == img[r]
  {
  }

  /** The flat buffer after the vertical flip: byte `col` of row `row`, at offset
      `row * Hbytes + col`, comes from offset `(Vpixels-1-row) * Hbytes + col`. */
  lemma {:induction false} VerticalFlatOffsets(img: Image, h: nat, row: nat, col: nat)
    requires Uniform(img, h) && row < |img| && col < h
    ensures Offset(|img| - 1 - row, h, col) < |Flatten(img)|
    ensures Offset(row, h, col) < |Flatten(ReverseRows(img))|
    ensures Flatten(ReverseRows(img))[Offset(row, h, col)] == Flatten(img)[Offset(|img| - 1 - row, h, col)]
  {
    var src := |img| - 1 - row;
    FlattenIndex(img, h, src, col);
    FlippedFlatIndex(img, h, row, col);
  }

  lemma {:induction false} FlippedFlatIndex(img: Image, h: nat, row: nat, col: nat)
    requires Uniform(img, h) && row < |img| && col < h
    ensures Offset(row, h, col) < |Flatten(ReverseRows(img))|
    ensures Flatten(ReverseRows(img))[Offset(row, h, col)] == img[|img| - 1 - row][col]
  {
    var flipped := ReverseRows(img);
    assert Uniform(flipped, h);
    FlattenIndex(flipped, h, row, col);
  }

  /** For odd `Vpixels` the middle row stays; flipping twice restores the image. */
  lemma VerticalFlipFacts(img: Image)
    ensures |img| % 2 == 1 ==> ReverseRows(img)[|img| / 2] == img[|img| / 2]
    ensures ReverseRows(ReverseRows(img)) == img
  {
    ReverseRowsInvolution(img);
  }

  /** `FlipImageH`: every row's pixels reversed by the column loop. */
  method FlipImageH(img: Image, ip: ImgProp) returns (out: Image)
    requires Fits(img, ip)
    ensures Fits(out, ip)
    ensures out == MirrorEachRow(img, ip.hpixels)
  {
    StrideHoldsPixels(ip);
    out := img;
    var row := 0;
    while row < ip.vpixels
      invariant 0 <= row <= ip.vpixels && |out| == |img|
      invariant forall k :: 0 <= k < row ==> out[k] == MirrorPixels(img[k], ip.hpixels)
      invariant forall k :: row <= k < |img| ==> out[k] == img[k]
    {
      var flipped := PixelSwap.ReverseRowPixels(out[row], ip.hpixels);
      out := out[row := flipped];
      row := row + 1;
    }
  }

  /** Row order and padding `[3 * Hpixels, Hbytes)` are untouched, and flipping twice
      restores the image. */
  lemma HorizontalFlipFacts(img: Image, ip: ImgProp, r: nat, c: nat)
    requires Fits(img, ip) && r < |img| && 3 * ip.hpixels <= c < ip.hbytes
    ensures MirrorEachRow(img, ip.hpixels)[r][c] == img[r][c]
    ensures MirrorEachRow(MirrorEachRow(img, ip.hpixels), ip.hpixels) == img
  {
    StrideHoldsPixels(ip);
    MirrorEachRowInvolution(img, ip.hpixels);
  }
}
