/** `main` of the MPI program, with the `p` ranks run side by side: rank 0's image is
    scattered in row blocks, every rank flips its block (exchanging rows for the
    vertical flip), and the blocks are gathered back in rank order. */
module MpiMain {
  import opened Raster
  import opened Bmp
  import opened Cli
  import opened Partition
  import MpiFlip
  import SerialFlip

  /** Every scattered row still holds `hp` pixels. */
  lemma ScatterKeepsStride(img: Image, ip: ImgProp, p: nat)
    requires p >= 1 && SerialFlip.Fits(img, ip)
    ensures forall r, k :: 0 <= r < p && 0 <= k < |Scatter(img, p)[r]| ==>
      3 * ip.hpixels <= |Scatter(img, p)[r][k]|
  {
    StrideHoldsPixels(ip);
    forall r, k | 0 <= r < p && 0 <= k < |Scatter(img, p)[r]|
      ensures 3 * ip.hpixels <= |Scatter(img, p)[r][k]|
    {
      BlockAt(img, p, r, k);
    }
  }

  /** `FlipImageH` run on every rank. */
  method FlipEveryRankH(ranks: seq<Image>, hp: nat) returns (out: seq<Image>)
    requires forall r, k :: 0 <= r < |ranks| && 0 <= k < |ranks[r]| ==> 3 * hp <= |ranks[r][k]|
    ensures out == seq(|ranks|, r requires 0 <= r < |ranks| => MirrorEachRow(ranks[r], hp))
  {
    out := [];
    var r := 0;
    while r < |ranks|
      invariant 0 <= r <= |ranks|
      invariant out == seq(r, j requires 0 <= j < r => MirrorEachRow(ranks[j], hp))
    {
      var local := MpiFlip.FlipImageH(ranks[r], hp);
      out := out + [local];
      r := r + 1;
    }
  }

  /** The program on `p` ranks: fewer than four arguments print the usage text, a letter
      other than V or H makes every rank exit, and otherwise the gathered image is
      the flipped input. */
  method Run(argc: int, flipArg: string, img: Image, ip: ImgProp, p: nat) returns (o: Outcome)
    requires p >= 1 && SerialFlip.Fits(img, ip)
    ensures argc < 4 ==> o == Usage
    ensures argc >= 4 && FlipLetter(flipArg) == 'V' ==> o == Flipped(ReverseRows(img))
    ensures argc >= 4 && FlipLetter(flipArg) == 'H' ==> o == Flipped(MirrorEachRow(img, ip.hpixels))
    ensures argc >= 4 && FlipLetter(flipArg) != 'V' && FlipLetter(flipArg) != 'H' ==> o == Rejected
  {
    if argc < 4 {
      return Usage;
    }
    var flip := FlipLetter(flipArg);
    var ranks := Scatter(img, p);
    GatherScatter(img, p);
    if flip == 'V' {
      var out := MpiFlip.FlipImageV(ranks, |img|, p);
      o := Flipped(Gather(out));
    } else if flip == 'H' {
      ScatterKeepsStride(img, ip, p);
      var out := FlipEveryRankH(ranks, ip.hpixels);
      MpiFlip.FlipHNeedsNoExchange(ranks, ip.hpixels);
      o := Flipped(Gather(out));
    } else {
      o := Rejected;
    }
  }
}
