/** The inner column loop shared by every horizontal flip: pixels of one row
    swapped end for end, three bytes at a time. */
module PixelSwap {
  import opened Raster

  /** Byte `k` (0 = B, 1 = G, 2 = R) of pixel `p`. */
  ghost function Pix(row: Row, p: nat, k: nat): (b: Byte)
    requires 3 * p + k < |row|
  {
    row[3 * p + k]
  }

  /** `out` is `row` with its outer `j` pixels on each side swapped end for end. */
  ghost predicate SwappedOuter(out: Row, row: Row, hp: nat, j: nat)
    requires 3 * hp <= |row|
  {
    && |out| == |row|
    && (forall p, k {:trigger Pix(out, p, k)} :: 0 <= p < hp && 0 <= k < 3 ==>
          Pix(out, p, k) == (if p < j || hp - 1 - p < j then Pix(row, hp - 1 - p, k) else Pix(row, p, k)))
    && (forall c :: 3 * hp <= c < |row| ==> out[c] == row[c])
  }

  /** The six byte writes of one trip through the loop body, on pixels `j` and `hp-1-j`. */
  function SwapPixel(out: Row, hp: nat, j: nat): (next: Row)
    requires j <= hp - 1 - j && hp > 0 && 3 * hp <= |out|
    ensures |next| == |out|
  {
    var opp := 3 * (hp - 1 - j);
    out[3 * j := out[opp]][3 * j + 1 := out[opp + 1]][3 * j + 2 := out[opp + 2]]
       [opp := out[3 * j]][opp + 1 := out[3 * j + 1]][opp + 2 := out[3 * j + 2]]
  }

  /** Pixel `p` after the swap: the two swapped pixels trade places, all others stay. */
  lemma SwapPixelAt(out: Row, hp: nat, j: nat, p: nat, k: nat)
    requires j <= hp - 1 - j && hp > 0 && 3 * hp <= |out| && p < hp && k < 3
    ensures Pix(SwapPixel(out, hp, j), p, k)
         == if p == j then Pix(out, hp - 1 - j, k) else if p == hp - 1 - j then Pix(out, j, k) else Pix(out, p, k)
  {
  }

  /** One trip through the loop body swaps pixel `j` with pixel `hp-1-j`. */
  lemma SwapOnePixel(out: Row, row: Row, hp: nat, j: nat)
    requires 3 * hp <= |row| && j <= hp - 1 - j && hp > 0
    requires SwappedOuter(out, row, hp, j)
    ensures SwappedOuter(SwapPixel(out, hp, j), row, hp, j + 1)
  {
    forall p, k {:trigger Pix(SwapPixel(out, hp, j), p, k)} | 0 <= p < hp && 0 <= k < 3
      ensures Pix(SwapPixel(out, hp, j), p, k) == (if p < j + 1 || hp - 1 - p < j + 1 then Pix(row, hp - 1 - p, k) else Pix(row, p, k))
    {
      SwapPixelAt(out, hp, j, p, k);
      if p == j {
        assert Pix(out, hp - 1 - j, k) == Pix(row, hp - 1 - j, k);
      } else if p == hp - 1 - j {
        assert Pix(out, j, k) == Pix(row, j, k);
      }
    }
    assert forall c :: 3 * hp <= c < |row| ==> SwapPixel(out, hp, j)[c] == out[c];
  }

  /** Walks `col = 0, 3, 6, ...` while `col < hp * 3 / 2`, swapping the B,G,R bytes at
      `col` with those at `opp = hp * 3 - (col + 3)`; bytes from `3 * hp` on are padding. */
  method ReverseRowPixels(row: Row, hp: nat) returns (out: Row)
    requires 3 * hp <= |row|
    ensures out == MirrorPixels(row, hp)
  {
    out := row;
    var col := 0;
    ghost var j := 0;
    while col < hp * 3 / 2
      invariant col == 3 * j && 2 * j <= hp + 1
      invariant SwappedOuter(out, row, hp, j)
    {
      var opp := hp * 3 - (col + 3);
      SwapOnePixel(out, row, hp, j);
      var b, g, r := out[col], out[col + 1], out[col + 2];
      out := out[col := out[opp]][col + 1 := out[opp + 1]][col + 2 := out[opp + 2]];
      out := out[opp := b][opp + 1 := g][opp + 2 := r];
      col, j := col + 3, j + 1;
    }
    SweepDone(hp, j);
    AllSwappedIsMirror(out, row, hp, j);
  }

  /** The loop stops once `3 * j` reaches `hp * 3 / 2`, by which time the swapped outer
      pixels meet in the middle. */
  lemma SweepDone(hp: nat, j: nat)
    requires 3 * j >= hp * 3 / 2
    ensures 2 * j >= hp
  {
  }

  /** With the outer halves swapped from both ends, the row is mirrored. */
  lemma AllSwappedIsMirror(out: Row, row: Row, hp: nat, j: nat)
    requires 3 * hp <= |row| && 2 * j >= hp
    requires SwappedOuter(out, row, hp, j)
    ensures out == MirrorPixels(row, hp)
  {
    forall c | 0 <= c < |row|
      ensures out[c] == MirrorPixels(row, hp)[c]
    {
      if c < 3 * hp {
        var p, k := c / 3, c % 3;
        assert c == 3 * p + k;
        assert Pix(out, p, k) == Pix(row, hp - 1 - p, k);
      }
    }
  }
}
