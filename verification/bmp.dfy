/** Image properties of a 24-bit BMP and its row stride: each row is padded
    to a multiple of four bytes. */
module Bmp {

  /** 2^n */
  function Pow2(n: nat): (r: nat)
    ensures r >= 1
  {
    if n == 0 then 1 else 2 * Pow2(n - 1)
  }

  /** Bitwise AND of two non-negative integers, bit by bit from the least significant end. */
  function BitAnd(a: nat, b: nat): (r: nat)
    decreases a
  {
    if a == 0 || b == 0 then 0
    else 2 * BitAnd(a / 2, b / 2) + (if a % 2 == 1 && b % 2 == 1 then 1 else 0)
  }

  /** The 32-bit pattern of C's `~3`: every bit set except the two lowest. */
  const NOT_THREE: nat := 0xFFFF_FFFC

  /** Largest value of a C `int`. */
  const INT_MAX: nat := 0x7FFF_FFFF

  lemma {:induction false} AndAllOnes(x: nat, n: nat)
    requires x < Pow2(n)
    ensures BitAnd(x, Pow2(n) - 1) == x
    decreases n
  {
    if x != 0 && n != 0 {
      assert Pow2(n) - 1 == 2 * (Pow2(n - 1) - 1) + 1;
      assert (Pow2(n) - 1) / 2 == Pow2(n - 1) - 1;
      AndAllOnes(x / 2, n - 1);
    }
  }

  lemma {:induction false} Pow2Add(a: nat, b: nat)
    ensures Pow2(a + b) == Pow2(a) * Pow2(b)
    decreases a
  {
    if a > 0 {
      Pow2Add(a - 1, b);
    }
  }

  lemma Pow2ThirtyTwo()
    ensures Pow2(30) == 0x4000_0000 && Pow2(32) == 0x1_0000_0000
  {
    assert Pow2(2) == 4;
    assert Pow2(5) == 32;
    Pow2Add(5, 5);
    Pow2Add(10, 10);
    Pow2Add(20, 10);
    Pow2Add(30, 2);
  }

  lemma {:induction false} AndEven(x: nat, y: nat)
    ensures BitAnd(x, 2 * y) == 2 * BitAnd(x / 2, y)
  {
    if x != 0 && y != 0 {
      assert (2 * y) / 2 == y && (2 * y) % 2 == 0;
      assert BitAnd(x, 2 * y) == 2 * BitAnd(x / 2, (2 * y) / 2);
    }
  }

  /** Masking with `~3` clears the two low bits of any value below 2^32. */
  lemma {:induction false} ClearLowTwoBits(x: nat)
    requires x < Pow2(32)
    ensures BitAnd(x, NOT_THREE) == x - x % 4
  {
    Pow2ThirtyTwo();
    assert NOT_THREE == 2 * (2 * (Pow2(30) - 1));
    AndEven(x, 2 * (Pow2(30) - 1));
    AndEven(x / 2, Pow2(30) - 1);
    assert x / 2 / 2 == x / 4;
    AndAllOnes(x / 4, 30);
  }

  /** Bytes per row of a `width`-pixel, 3-bytes-per-pixel row: `(width * 3 + 3) & ~3`. */
  function RowBytes(width: nat): (r: nat)
    requires width * 3 + 3 <= INT_MAX
    ensures r % 4 == 0
    ensures 3 * width <= r < 3 * width + 4
  {
    var x := width * 3 + 3;
    Pow2ThirtyTwo();
    ClearLowTwoBits(x);
    var q := x / 4;
    assert x - x % 4 == 4 * q;
    BitAnd(x, NOT_THREE)
  }

  /** `struct ImgProp`: width in pixels, height in rows, bytes per stored row. */
  datatype ImgProp = ImgProp(hpixels: nat, vpixels: nat, hbytes: nat) {
    /** The properties as the reader derives them from a header: the stride is `RowBytes(hpixels)`. */
    predicate FromHeader()
    {
      hpixels * 3 + 3 <= INT_MAX && hbytes == RowBytes(hpixels)
    }
  }

  /** A header-derived stride holds every pixel byte of a row and pads by at most three bytes. */
  lemma StrideHoldsPixels(ip: ImgProp)
    requires ip.FromHeader()
    ensures 3 * ip.hpixels <= ip.hbytes < 3 * ip.hpixels + 4
    ensures ip.hbytes % 4 == 0
  {
  }
}
