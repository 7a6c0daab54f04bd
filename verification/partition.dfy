/** How the MPI variant splits the rows of an image among `p` ranks: every rank
    gets `v / p` consecutive rows and the last rank also takes the remainder.
    Ownership and local offsets are pure functions of `(v, p)`, so every rank
    computes them alone. */
module Partition {
  import opened Raster

  /** `rowsPerProc`: the base share of every rank. */
  function RowsPerProc(v: nat, p: nat): (b: nat)
    requires p >= 1
  {
    v / p
  }

  /** First global row held by `rank`. */
  function Start(v: nat, p: nat, rank: nat): (first: nat)
    requires p >= 1
  {
    rank * RowsPerProc(v, p)
  }

  lemma LastStartFits(v: nat, p: nat)
    requires p >= 1
    ensures (p - 1) * (v / p) <= v
  {
    assert v == p * (v / p) + v % p;
    assert (p - 1) * (v / p) == p * (v / p) - v / p;
  }

  /** `localRows`: the base share, and on the last rank everything from its start to the end. */
  function LocalRows(v: nat, p: nat, rank: nat): (rows: nat)
    requires p >= 1 && rank < p
  {
    LastStartFits(v, p);
    MulStep(rank, p - 1, v / p);
    if rank == p - 1 then v - rank * RowsPerProc(v, p) else RowsPerProc(v, p)
  }

  /** Rows held by ranks `0 .. k-1` together; `k == p` gives all `v` rows. */
  function RowsBefore(v: nat, p: nat, k: nat): (rows: nat)
    requires p >= 1 && k <= p
  {
    if k == p then v else Start(v, p, k)
  }

  /** Global row `g` lies in the block of `rank`. */
  predicate Owns(v: nat, p: nat, rank: nat, g: int)
    requires p >= 1 && rank < p
  {
    Start(v, p, rank) <= g < Start(v, p, rank) + LocalRows(v, p, rank)
  }

  /** The blocks follow each other: rank `k`'s block is `[RowsBefore(k), RowsBefore(k+1))`. */
  lemma BlockBounds(v: nat, p: nat, k: nat)
    requires p >= 1 && k < p
    ensures Start(v, p, k) == RowsBefore(v, p, k)
    ensures Start(v, p, k) + LocalRows(v, p, k) == RowsBefore(v, p, k + 1) <= v
  {
    LastStartFits(v, p);
    if k < p - 1 {
      assert (k + 1) * (v / p) == k * (v / p) + v / p;
      MulStep(k + 1, p - 1, v / p);
    }
  }

  /** `g / b` names the block of width `b` that holds `g`. */
  lemma DivBlock(g: nat, b: nat, n: nat)
    requires b > 0 && g < n * b
    ensures g / b < n
    ensures (g / b) * b <= g < (g / b) * b + b
  {
    assert g == (g / b) * b + g % b;
    if g / b >= n {
      MulStep(n, g / b, b);
    }
  }

  /** `getRank`: the rank whose block holds global row `g`. */
  function GetRank(v: nat, p: nat, g: nat): (r: nat)
    requires p >= 1 && g < v
    ensures r < p && Owns(v, p, r, g)
  {
    BlockBounds(v, p, p - 1);
    if p == 1 then 0
    else
      var lastProcStartRow := (p - 1) * RowsPerProc(v, p);
      if g < lastProcStartRow then
        DivBlock(g, v / p, p - 1);
        g / RowsPerProc(v, p)
      else p - 1
  }

  /** No row lies in two blocks. */
  lemma BlocksDisjoint(v: nat, p: nat, r1: nat, r2: nat, g: nat)
    requires p >= 1 && r1 < p && r2 < p
    requires Owns(v, p, r1, g) && Owns(v, p, r2, g)
    ensures r1 == r2
  {
    if r1 < r2 {
      BlockBounds(v, p, r1);
      MulStep(r1 + 1, r2, v / p);
    } else if r2 < r1 {
      BlockBounds(v, p, r2);
      MulStep(r2 + 1, r1, v / p);
    }
  }

  /** `getRank(g) == r` exactly when `r`'s block holds `g`; all remainder rows,
      including every row when `v < p`, belong to the last rank. */
  lemma GetRankIff(v: nat, p: nat, g: nat, r: nat)
    requires p >= 1 && g < v && r < p
    ensures GetRank(v, p, g) == r <==> Start(v, p, r) <= g < Start(v, p, r) + LocalRows(v, p, r)
    ensures g >= (p - 1) * RowsPerProc(v, p) ==> GetRank(v, p, g) == p - 1
  {
    if Owns(v, p, r, g) {
      BlocksDisjoint(v, p, r, GetRank(v, p, g), g);
    }
    if g >= (p - 1) * RowsPerProc(v, p) {
      BlockBounds(v, p, p - 1);
      BlocksDisjoint(v, p, p - 1, GetRank(v, p, g), g);
    }
  }

  /** `getMyIdx`, called on `rank`: the offset of global row `g` inside `rank`'s block. */
  function GetMyIdx(v: nat, p: nat, rank: nat, g: nat): (idx: int)
    requires p >= 1 && rank < p
    ensures Owns(v, p, rank, g) ==> 0 <= idx < LocalRows(v, p, rank) && Start(v, p, rank) + idx == g
  {
    if p == 1 then g else g - rank * RowsPerProc(v, p)
  }

  lemma RowsBeforeMono(v: nat, p: nat, a: nat, b: nat)
    requires p >= 1 && a <= b <= p
    ensures RowsBefore(v, p, a) <= RowsBefore(v, p, b)
  {
    LastStartFits(v, p);
    if b < p {
      MulStep(a, b, v / p);
    } else if a < p {
      MulStep(a, p - 1, v / p);
    }
  }

  /** Byte extent of rank `k`'s block for rows of `h` bytes. */
  lemma BlockBytes(v: nat, p: nat, k: nat, h: nat)
    requires p >= 1 && k < p
    ensures RowsBefore(v, p, k) == Start(v, p, k)
    ensures RowsBefore(v, p, k) * h + LocalRows(v, p, k) * h == RowsBefore(v, p, k + 1) * h
  {
    BlockBounds(v, p, k);
    Distrib(RowsBefore(v, p, k), LocalRows(v, p, k), h);
  }

  /** The rank-0 loop that fills `sendcounts` and `displs` (in bytes) for the scatter
      and the gather: counts are `localRows * hbytes`, displacements their running sum. */
  method ScatterPlan(v: nat, p: nat, hbytes: nat) returns (sendcounts: seq<nat>, displs: seq<nat>)
    requires p >= 1
    ensures |sendcounts| == p && |displs| == p
    ensures forall i :: 0 <= i < p ==> sendcounts[i] == LocalRows(v, p, i) * hbytes
    ensures displs[0] == 0
    ensures forall i :: 0 <= i < p - 1 ==> displs[i + 1] == displs[i] + sendcounts[i]
    ensures displs[p - 1] + sendcounts[p - 1] == v * hbytes
    ensures forall i :: 0 <= i < p ==> displs[i] == Start(v, p, i) * hbytes
    ensures forall i, j :: 0 <= i < j < p ==> displs[i] + sendcounts[i] <= displs[j]
  {
    sendcounts, displs := [], [];
    var offset := 0;
    var i := 0;
    while i < p
      invariant 0 <= i <= p
      invariant |sendcounts| == i && |displs| == i
      invariant offset == RowsBefore(v, p, i) * hbytes
      invariant forall k :: 0 <= k < i ==> sendcounts[k] == LocalRows(v, p, k) * hbytes
      invariant forall k :: 0 <= k < i ==> displs[k] == RowsBefore(v, p, k) * hbytes
    {
      var r := if i == p - 1 then v - i * RowsPerProc(v, p) else RowsPerProc(v, p);
      BlockBytes(v, p, i, hbytes);
      assert r == LocalRows(v, p, i);
      sendcounts := sendcounts + [r * hbytes];
      displs := displs + [offset];
      offset := offset + r * hbytes;
      i := i + 1;
    }
    PlanShape(v, p, hbytes, sendcounts, displs);
    PlanOrdered(v, p, hbytes, sendcounts, displs);
  }

  lemma PlanShape(v: nat, p: nat, hbytes: nat, sendcounts: seq<nat>, displs: seq<nat>)
    requires p >= 1 && |sendcounts| == p && |displs| == p
    requires forall k :: 0 <= k < p ==> sendcounts[k] == LocalRows(v, p, k) * hbytes
    requires forall k :: 0 <= k < p ==> displs[k] == RowsBefore(v, p, k) * hbytes
    ensures displs[0] == 0
    ensures forall i :: 0 <= i < p - 1 ==> displs[i + 1] == displs[i] + sendcounts[i]
    ensures displs[p - 1] + sendcounts[p - 1] == v * hbytes
    ensures forall i :: 0 <= i < p ==> displs[i] == Start(v, p, i) * hbytes
  {
    BlockBytes(v, p, 0, hbytes);
    BlockBytes(v, p, p - 1, hbytes);
    forall i | 0 <= i < p
      ensures displs[i] == Start(v, p, i) * hbytes
      ensures displs[i] + sendcounts[i] == RowsBefore(v, p, i + 1) * hbytes
    {
      BlockBytes(v, p, i, hbytes);
    }
  }

  /** The planned blocks lie in rank order without overlapping. */
  lemma PlanOrdered(v: nat, p: nat, hbytes: nat, sendcounts: seq<nat>, displs: seq<nat>)
    requires p >= 1 && |sendcounts| == p && |displs| == p
    requires forall k :: 0 <= k < p ==> sendcounts[k] == LocalRows(v, p, k) * hbytes
    requires forall k :: 0 <= k < p ==> displs[k] == RowsBefore(v, p, k) * hbytes
    ensures forall i, j {:trigger sendcounts[i], displs[j]} :: 0 <= i < j < p ==> displs[i] + sendcounts[i] <= displs[j]
  {
    forall i, j | 0 <= i < j < p
      ensures displs[i] + sendcounts[i] <= displs[j]
    {
      assert displs[i] + sendcounts[i] == RowsBefore(v, p, i + 1) * hbytes by {
        BlockBytes(v, p, i, hbytes);
      }
      RowsBeforeMono(v, p, i + 1, j);
      MulStep(RowsBefore(v, p, i + 1), RowsBefore(v, p, j), hbytes);
    }
  }

  /** Per-rank buffers shaped by the partition: `p` of them, rank `r` holding `LocalRows(r)` rows. */
  predicate WellFormed<T>(ranks: seq<seq<T>>, v: nat, p: nat)
  {
    p >= 1 && |ranks| == p && forall r :: 0 <= r < p ==> |ranks[r]| == LocalRows(v, p, r)
  }

  /** `MPI_Scatterv`: rank `r` receives the rows of its block. */
  function Scatter<T>(img: seq<T>, p: nat): (ranks: seq<seq<T>>)
    requires p >= 1
    ensures WellFormed(ranks, |img|, p)
  {
    seq(p, r requires 0 <= r < p => Block(img, p, r))
  }

  function Block<T>(img: seq<T>, p: nat, r: nat): (b: seq<T>)
    requires p >= 1 && r < p
    ensures |b| == LocalRows(|img|, p, r)
  {
    BlockBounds(|img|, p, r);
    var s := Start(|img|, p, r);
    img[s .. s + LocalRows(|img|, p, r)]
  }

  /** `MPI_Gatherv` with displacements that are the running sum of the counts:
      the rank buffers one after another. */
  function Gather<T>(ranks: seq<seq<T>>): (all: seq<T>)
  {
    Flatten(ranks)
  }

  lemma {:induction false} GatherPrefix<T>(img: seq<T>, p: nat, k: nat)
    requires p >= 1 && k <= p
    ensures RowsBefore(|img|, p, k) <= |img|
    ensures Gather(Scatter(img, p)[..k]) == img[..RowsBefore(|img|, p, k)]
    decreases k
  {
    var ranks := Scatter(img, p);
    if k == 0 {
      assert ranks[..0] == [];
    } else {
      GatherPrefix(img, p, k - 1);
      BlockBounds(|img|, p, k - 1);
      assert ranks[..k][..k - 1] == ranks[..k - 1];
      assert img[..RowsBefore(|img|, p, k)]
          == img[..RowsBefore(|img|, p, k - 1)] + img[RowsBefore(|img|, p, k - 1) .. RowsBefore(|img|, p, k)];
    }
  }

  /** Gathering what was scattered rebuilds the image. */
  lemma GatherScatter<T>(img: seq<T>, p: nat)
    requires p >= 1
    ensures Gather(Scatter(img, p)) == img
  {
    GatherPrefix(img, p, p);
    assert Scatter(img, p)[..p] == Scatter(img, p);
  }

  lemma {:induction false} GatherPrefixLength<T>(ranks: seq<seq<T>>, v: nat, p: nat, k: nat)
    requires WellFormed(ranks, v, p) && k <= p
    ensures |Gather(ranks[..k])| == RowsBefore(v, p, k)
    decreases k
  {
    if k > 0 {
      GatherPrefixLength(ranks, v, p, k - 1);
      BlockBounds(v, p, k - 1);
      assert ranks[..k][..k - 1] == ranks[..k - 1];
    } else {
      assert ranks[..0] == [];
    }
  }

  /** Scattering what was gathered gives every rank its buffer back. */
  lemma ScatterGather<T>(ranks: seq<seq<T>>, v: nat, p: nat)
    requires WellFormed(ranks, v, p)
    ensures |Gather(ranks)| == v
    ensures Scatter(Gather(ranks), p) == ranks
  {
    GatherPrefixLength(ranks, v, p, p);
    assert ranks[..p] == ranks;
    var all := Gather(ranks);
    forall r | 0 <= r < p
      ensures Scatter(all, p)[r] == ranks[r]
    {
      assert ranks == ranks[..r] + [ranks[r]] + ranks[r + 1..];
      FlattenAppend(ranks[..r] + [ranks[r]], ranks[r + 1..]);
      FlattenAppend(ranks[..r], [ranks[r]]);
      assert Flatten([ranks[r]]) == ranks[r] by {
        assert [ranks[r]][..0] == [];
      }
      GatherPrefixLength(ranks, v, p, r);
      BlockBounds(v, p, r);
    }
  }

  /** Row `k` of rank `r`'s block is global row `Start(r) + k`. */
  lemma BlockAt<T>(img: seq<T>, p: nat, r: nat, k: nat)
    requires p >= 1 && r < p && k < LocalRows(|img|, p, r)
    ensures Start(|img|, p, r) + k < |img|
    ensures Block(img, p, r)[k] == img[Start(|img|, p, r) + k]
  {
    BlockBounds(|img|, p, r);
  }

  /** Row `g` of the gathered image is row `getMyIdx(g)` of rank `getRank(g)`. */
  lemma GatherIndex<T>(ranks: seq<seq<T>>, v: nat, p: nat, g: nat)
    requires WellFormed(ranks, v, p) && g < v
    ensures |Gather(ranks)| == v
    ensures 0 <= GetMyIdx(v, p, GetRank(v, p, g), g) < |ranks[GetRank(v, p, g)]|
    ensures Gather(ranks)[g] == ranks[GetRank(v, p, g)][GetMyIdx(v, p, GetRank(v, p, g), g)]
  {
    ScatterGather(ranks, v, p);
    var all := Gather(ranks);
    var o := GetRank(v, p, g);
    var k := GetMyIdx(v, p, o, g);
    assert Scatter(all, p)[o] == Block(all, p, o);
    BlockAt(all, p, o, k);
  }

  /** The bytes `MPI_Scatterv` sends rank `r` from the flat image, `[displs[r], displs[r] + sendcounts[r])`,
      are exactly the bytes of the rows of its block. */
  lemma ScattervBytes(img: Image, h: nat, p: nat, r: nat)
    requires p >= 1 && r < p && Uniform(img, h)
    ensures 0 <= Start(|img|, p, r) * h <= Start(|img|, p, r) * h + LocalRows(|img|, p, r) * h <= |Flatten(img)|
    ensures Flatten(img)[Start(|img|, p, r) * h .. Start(|img|, p, r) * h + LocalRows(|img|, p, r) * h]
         == Flatten(Scatter(img, p)[r])
  {
    var a, n := Start(|img|, p, r), LocalRows(|img|, p, r);
    var b := a + n;
    assert b <= |img| && Scatter(img, p)[r] == img[a..b] by {
      BlockBounds(|img|, p, r);
    }
    assert a * h + n * h == b * h by {
      Distrib(a, n, h);
    }
    FlattenSlice(img, h, a, b);
  }
}
