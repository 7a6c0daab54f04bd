/** The multi-threaded flips of the pthread program. Each thread works on its own
    run of rows of the shared image; runs never overlap, so the threads are
    modelled one after another in any completion order, and the result depends
    only on which threads ran. */
module PthreadFlip {
  import opened Raster
  import opened ThreadRanges
  import PixelSwap

  /** Threads `order[0 .. k-1]`, the ones that have finished after `k` completions. */
  function Launched(order: seq<nat>, k: nat): (s: set<nat>)
    requires k <= |order|
    ensures forall t :: t in s <==> exists j :: 0 <= j < k && order[j] == t
    ensures forall t :: t in s <==> t in order[..k]
  {
    if k == 0 then {}
    else
      assert order[..k] == order[..k - 1] + [order[k - 1]];
      Launched(order, k - 1) + {order[k - 1]}
  }

  predicate Distinct(order: seq<nat>)
  {
    forall j, k :: 0 <= j < k < |order| ==> order[j] != order[k]
  }

  // ---------------------------------------------------------------- vertical

  /** The image after the threads in `threads` have swapped their pairs: row `i` comes
      from its mirror exactly when the top row of its pair is taken by one of them. */
  function MirrorThreadsV(img: Image, c: Chunks, threads: set<nat>): (r: Image)
    requires c.limit <= |img| / 2
    ensures |r| == |img|
  {
    seq(|img|, i requires 0 <= i < |img| =>
      if Taken(c, threads, i) || Taken(c, threads, |img| - 1 - i) then img[|img| - 1 - i] else img[i])
  }

  /** The body of `MTFlipV` for the pairs `[lo, hi)`: each row exchanged with its mirror
      through two row buffers. */
  method SwapPairs(cur: Image, lo: nat, hi: nat) returns (out: Image)
    requires lo <= hi <= |cur| / 2
    ensures out == MirrorSpan(cur, lo, hi)
  {
    out := cur;
    var row := lo;
    while row < hi
      invariant lo <= row <= hi
      invariant out == MirrorSpan(cur, lo, row)
    {
      var row2 := |cur| - row - 1;
      var buffer := out[row];
      var buffer2 := out[row2];
      MirrorSpanGrow(cur, lo, row, out);
      out := out[row := buffer2][row2 := buffer];
      row := row + 1;
    }
  }

  /** Thread `t` of `MTFlipV` with `n` threads: the pairs `[t * q, t * q + q)`,
      `q = Vpixels / n / 2`. */
  method MTFlipV(cur: Image, n: nat, t: nat) returns (out: Image)
    requires n >= 1 && t < n
    ensures out == MirrorSpan(cur, Lo(MTFlipVChunks(|cur|, n), t), Hi(MTFlipVChunks(|cur|, n), t))
  {
    var q := |cur| / n / 2;
    var ts := t * q;
    var te := ts + q - 1;
    ghost var c := MTFlipVChunks(|cur|, n);
    assert c == Chunks(q, n * q);
    SourceRange(n, q, t);
    assert Lo(c, t) == ts && Hi(c, t) == te + 1 <= c.limit <= |cur| / 2;
    out := SwapPairs(cur, ts, te + 1);
  }

  /** One more thread finishing adds its pairs to the swapped set. */
  lemma ThreadVStep(img: Image, c: Chunks, threads: set<nat>, t: nat)
    requires c.limit <= |img| / 2 && t !in threads
    ensures MirrorSpan(MirrorThreadsV(img, c, threads), Lo(c, t), Hi(c, t))
         == MirrorThreadsV(img, c, threads + {t})
  {
    var v := |img|;
    var cur := MirrorThreadsV(img, c, threads);
    var lhs := MirrorSpan(cur, Lo(c, t), Hi(c, t));
    var rhs := MirrorThreadsV(img, c, threads + {t});
    forall i | 0 <= i < v
      ensures lhs[i] == rhs[i]
    {
      if c.size > 0 {
        InChunk(c, t, i);
        InChunk(c, t, v - 1 - i);
      }
    }
  }

  /** `pthread_create` for every thread, then `pthread_join` for all, with the threads'
      effects applied in the completion order `order`. */
  method RunThreadsV(img: Image, c: Chunks, order: seq<nat>) returns (out: Image)
    requires c.limit <= |img| / 2 && Distinct(order)
    ensures out == MirrorThreadsV(img, c, Launched(order, |order|))
  {
    out := img;
    assert out == MirrorThreadsV(img, c, {});
    var j := 0;
    while j < |order|
      invariant 0 <= j <= |order|
      invariant out == MirrorThreadsV(img, c, Launched(order, j))
    {
      var t := order[j];
      ThreadVStep(img, c, Launched(order, j), t);
      out := SwapPairs(out, Lo(c, t), Hi(c, t));
      j := j + 1;
    }
  }

  /** Any two completion orders of the same threads give the same image. */
  lemma OrderIrrelevantV(img: Image, c: Chunks, a: seq<nat>, b: seq<nat>)
    requires c.limit <= |img| / 2
    requires forall t :: t in a <==> t in b
    ensures MirrorThreadsV(img, c, Launched(a, |a|)) == MirrorThreadsV(img, c, Launched(b, |b|))
  {
    assert a[..|a|] == a && b[..|b|] == b;
    assert Launched(a, |a|) == Launched(b, |b|);
  }

  /** All `n` threads of `MTFlipV`: the pairs `[0, n * q)` swapped and every other row
      untouched; when `2n` divides `Vpixels` that is the whole vertical flip. */
  lemma MTFlipVResult(img: Image, n: nat)
    requires n >= 1
    ensures MTFlipVChunks(|img|, n).limit <= |img| / 2
    ensures MirrorThreadsV(img, MTFlipVChunks(|img|, n), AllThreads(n))
         == MirrorSpan(img, 0, MTFlipVChunks(|img|, n).limit)
    ensures |img| % (2 * n) == 0 ==>
      MirrorThreadsV(img, MTFlipVChunks(|img|, n), AllThreads(n)) == ReverseRows(img)
  {
    var c := MTFlipVChunks(|img|, n);
    var v := |img|;
    forall i | 0 <= i < v
      ensures MirrorThreadsV(img, c, AllThreads(n))[i] == MirrorSpan(img, 0, c.limit)[i]
    {
      Coverage(c, n, i);
      Coverage(c, n, v - 1 - i);
    }
    if v % (2 * n) == 0 {
      EvenSplitCoversHalf(v, n);
      MirrorSpanHalf(img);
    }
  }

  /** Rows `[0], [1], ..., [5]`. */
  function SixRows(): (img: Image)
  {
    [[0], [1], [2], [3], [4], [5]]
  }

  /** Six rows on two threads: `q = 1`, so pairs `(0,5)` and `(1,4)` are swapped and
      the pair `(2,3)` is left alone. */
  lemma MTFlipVMissesPairs()
    ensures MTFlipVChunks(6, 2) == Chunks(1, 2)
    ensures MirrorThreadsV(SixRows(), Chunks(1, 2), AllThreads(2)) == [[5], [4], [2], [3], [1], [0]]
    ensures ReverseRows(SixRows()) == [[5], [4], [3], [2], [1], [0]]
  {
    var img := SixRows();
    var got := MirrorThreadsV(img, Chunks(1, 2), AllThreads(2));
    assert 0 in AllThreads(2) && 1 in AllThreads(2);
    assert got[0] == [5] && got[1] == [4] && got[2] == [2];
    assert got[3] == [3] && got[4] == [1] && got[5] == [0];
    assert ReverseRows(img)[2] == [3];
  }

  /** Thread `t` of the corrected vertical flip: the `Vpixels / 2` pairs split into
      `n` runs of `ceil((Vpixels / 2) / n)`. */
  method BalancedFlipV(cur: Image, n: nat, t: nat) returns (out: Image)
    requires n >= 1
    ensures out == MirrorSpan(cur, Lo(Balanced(|cur| / 2, n), t), Hi(Balanced(|cur| / 2, n), t))
  {
    var c := Balanced(|cur| / 2, n);
    out := SwapPairs(cur, Lo(c, t), Hi(c, t));
  }

  /** With balanced runs all `n` threads together flip the whole image, for every `n`. */
  lemma BalancedVIsFlip(img: Image, n: nat)
    requires n >= 1
    ensures MirrorThreadsV(img, Balanced(|img| / 2, n), AllThreads(n)) == ReverseRows(img)
  {
    var c := Balanced(|img| / 2, n);
    var v := |img|;
    forall i | 0 <= i < v
      ensures MirrorThreadsV(img, c, AllThreads(n))[i] == ReverseRows(img)[i]
    {
      Coverage(c, n, i);
      Coverage(c, n, v - 1 - i);
    }
  }

  // -------------------------------------------------------------- horizontal

  /** Rows `[lo, hi)` mirrored horizontally, every other row kept. */
  function MirrorRowRange(img: Image, hp: nat, lo: nat, hi: nat): (r: Image)
    requires forall k :: 0 <= k < |img| ==> 3 * hp <= |img[k]|
    ensures |r| == |img|
  {
    seq(|img|, i requires 0 <= i < |img| => if lo <= i < hi then MirrorPixels(img[i], hp) else img[i])
  }

  /** The image after the threads in `threads` have mirrored their rows. */
  function MirrorThreadsH(img: Image, hp: nat, c: Chunks, threads: set<nat>): (r: Image)
    requires forall k :: 0 <= k < |img| ==> 3 * hp <= |img[k]|
    ensures |r| == |img|
  {
    seq(|img|, i requires 0 <= i < |img| =>
      if Taken(c, threads, i) then MirrorPixels(img[i], hp) else img[i])
  }

  /** The body of `MTFlipH` for rows `[lo, hi)`: the column loop on each of them. */
  method FlipRowsH(cur: Image, hp: nat, lo: nat, hi: nat) returns (out: Image)
    requires forall k :: 0 <= k < |cur| ==> 3 * hp <= |cur[k]|
    requires lo <= hi <= |cur|
    ensures out == MirrorRowRange(cur, hp, lo, hi)
  {
    out := cur;
    var row := lo;
    while row < hi
      invariant lo <= row <= hi && |out| == |cur|
      invariant forall k :: 0 <= k < |cur| ==>
        out[k] == (if lo <= k < row then MirrorPixels(cur[k], hp) else cur[k])
    {
      var flipped := PixelSwap.ReverseRowPixels(out[row], hp);
      out := out[row := flipped];
      row := row + 1;
    }
  }

  /** Thread `t` of `MTFlipH` with `n` threads: rows `[t * b, t * b + b)`, `b = Vpixels / n`. */
  method MTFlipH(cur: Image, hp: nat, n: nat, t: nat) returns (out: Image)
    requires forall k :: 0 <= k < |cur| ==> 3 * hp <= |cur[k]|
    requires n >= 1 && t < n
    ensures out == MirrorRowRange(cur, hp, Lo(MTFlipHChunks(|cur|, n), t), Hi(MTFlipHChunks(|cur|, n), t))
  {
    var b := |cur| / n;
    var ts := t * b;
    var te := ts + b - 1;
    SourceRange(n, b, t);
    out := FlipRowsH(cur, hp, ts, te + 1);
  }

  lemma ThreadHStep(img: Image, hp: nat, c: Chunks, threads: set<nat>, t: nat)
    requires forall k :: 0 <= k < |img| ==> 3 * hp <= |img[k]|
    requires c.limit <= |img| && t !in threads
    ensures MirrorRowRange(MirrorThreadsH(img, hp, c, threads), hp, Lo(c, t), Hi(c, t))
         == MirrorThreadsH(img, hp, c, threads + {t})
  {
    var lhs := MirrorRowRange(MirrorThreadsH(img, hp, c, threads), hp, Lo(c, t), Hi(c, t));
    var rhs := MirrorThreadsH(img, hp, c, threads + {t});
    forall i | 0 <= i < |img|
      ensures lhs[i] == rhs[i]
    {
      if c.size > 0 {
        InChunk(c, t, i);
      }
    }
  }

  /** All threads of the horizontal flip started and joined, in completion order `order`. */
  method RunThreadsH(img: Image, hp: nat, c: Chunks, order: seq<nat>) returns (out: Image)
    requires forall k :: 0 <= k < |img| ==> 3 * hp <= |img[k]|
    requires c.limit <= |img| && Distinct(order)
    ensures out == MirrorThreadsH(img, hp, c, Launched(order, |order|))
  {
    out := img;
    assert out == MirrorThreadsH(img, hp, c, {});
    var j := 0;
    while j < |order|
      invariant 0 <= j <= |order|
      invariant out == MirrorThreadsH(img, hp, c, Launched(order, j))
    {
      var t := order[j];
      ThreadHStep(img, hp, c, Launched(order, j), t);
      out := FlipRowsH(out, hp, Lo(c, t), Hi(c, t));
      j := j + 1;
    }
  }

  /** All `n` threads of `MTFlipH`: rows `[0, n * (Vpixels / n))` mirrored, the last
      `Vpixels mod n` rows untouched; when `n` divides `Vpixels` every row is mirrored. */
  lemma MTFlipHResult(img: Image, hp: nat, n: nat)
    requires forall k :: 0 <= k < |img| ==> 3 * hp <= |img[k]|
    requires n >= 1
    ensures MTFlipHChunks(|img|, n).limit == |img| - |img| % n
    ensures MirrorThreadsH(img, hp, MTFlipHChunks(|img|, n), AllThreads(n))
         == MirrorRowRange(img, hp, 0, |img| - |img| % n)
    ensures |img| % n == 0 ==>
      MirrorThreadsH(img, hp, MTFlipHChunks(|img|, n), AllThreads(n)) == MirrorEachRow(img, hp)
  {
    var c := MTFlipHChunks(|img|, n);
    assert |img| == n * (|img| / n) + |img| % n;
    forall i | 0 <= i < |img|
      ensures MirrorThreadsH(img, hp, c, AllThreads(n))[i] == MirrorRowRange(img, hp, 0, c.limit)[i]
    {
      Coverage(c, n, i);
    }
  }

  /** Five copies of the two-pixel row `[1, 2, 3, 4, 5, 6]`. */
  function FiveRows(): (img: Image)
  {
    seq(5, _ => [1, 2, 3, 4, 5, 6])
  }

  /** Five rows on two threads: rows 0..3 are mirrored, row 4 is not. */
  lemma MTFlipHMissesRows()
    ensures MTFlipHChunks(5, 2) == Chunks(2, 4)
    ensures MirrorThreadsH(FiveRows(), 2, Chunks(2, 4), AllThreads(2))[4] == [1, 2, 3, 4, 5, 6]
    ensures MirrorEachRow(FiveRows(), 2)[4] == [4, 5, 6, 1, 2, 3]
  {
  }

  /** With balanced runs of `ceil(Vpixels / n)` rows every row is mirrored, for every `n`. */
  lemma BalancedHIsFlip(img: Image, hp: nat, n: nat)
    requires forall k :: 0 <= k < |img| ==> 3 * hp <= |img[k]|
    requires n >= 1
    ensures MirrorThreadsH(img, hp, Balanced(|img|, n), AllThreads(n)) == MirrorEachRow(img, hp)
  {
    var c := Balanced(|img|, n);
    forall i | 0 <= i < |img|
      ensures MirrorThreadsH(img, hp, c, AllThreads(n))[i] == MirrorEachRow(img, hp)[i]
    {
      Coverage(c, n, i);
    }
  }

  /** Thread `t` of the corrected horizontal flip. */
  method BalancedFlipH(cur: Image, hp: nat, n: nat, t: nat) returns (out: Image)
    requires forall k :: 0 <= k < |cur| ==> 3 * hp <= |cur[k]|
    requires n >= 1
    ensures out == MirrorRowRange(cur, hp, Lo(Balanced(|cur|, n), t), Hi(Balanced(|cur|, n), t))
  {
    var c := Balanced(|cur|, n);
    out := FlipRowsH(cur, hp, Lo(c, t), Hi(c, t));
  }
}
