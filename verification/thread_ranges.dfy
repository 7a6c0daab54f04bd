/** How the pthread flips hand out rows: thread `t` takes a run of `size` consecutive
    indices starting at `t * size`, and no index at or beyond `limit` is taken.
    The same shape describes the row pairs of the vertical flip and the rows of
    the horizontal flip. */
module ThreadRanges {
  import opened Raster

  datatype Chunks = Chunks(size: nat, limit: nat)

  function Min(a: nat, b: nat): (m: nat)
  {
    if a <= b then a else b
  }

  /** First index handled by thread `t`. */
  function Lo(c: Chunks, t: nat): (lo: nat)
  {
    Min(t * c.size, c.limit)
  }

  /** One past the last index handled by thread `t`. */
  function Hi(c: Chunks, t: nat): (hi: nat)
    ensures Lo(c, t) <= hi <= c.limit
  {
    MulMono(t, c.size);
    Min(t * c.size + c.size, c.limit)
  }

  lemma MulMono(t: nat, s: nat)
    ensures t * s <= t * s + s
  {
  }

  /** Index `m` falls to one of the threads in `threads`. */
  predicate Taken(c: Chunks, threads: set<nat>, m: nat)
  {
    m < c.limit && c.size > 0 && m / c.size in threads
  }

  /** The threads `0 .. n-1`. */
  function AllThreads(n: nat): (s: set<nat>)
    ensures forall t: nat :: t in s <==> t < n
  {
    if n == 0 then {} else AllThreads(n - 1) + {n - 1}
  }

  /** Thread `t`'s run is exactly the indices below `limit` whose quotient by `size` is `t`. */
  lemma InChunk(c: Chunks, t: nat, m: nat)
    requires c.size > 0
    ensures Lo(c, t) <= m < Hi(c, t) <==> m < c.limit && m / c.size == t
  {
    var q := m / c.size;
    assert m == q * c.size + m % c.size;
    if q < t {
      MulStep(q, t, c.size);
    } else if q > t {
      MulStep(t, q, c.size);
    }
  }

  /** The runs of two different threads share no index: the threads never touch the same row. */
  lemma ChunksDisjoint(c: Chunks, t1: nat, t2: nat, m: nat)
    requires t1 != t2
    ensures !(Lo(c, t1) <= m < Hi(c, t1) && Lo(c, t2) <= m < Hi(c, t2))
  {
    if c.size > 0 {
      InChunk(c, t1, m);
      InChunk(c, t2, m);
    }
  }

  /** Threads `0 .. n-1` together take exactly the indices below `limit`, provided
      `limit <= n * size`. */
  lemma Coverage(c: Chunks, n: nat, m: nat)
    requires c.limit <= n * c.size
    ensures Taken(c, AllThreads(n), m) <==> m < c.limit
  {
    if m < c.limit {
      assert c.size > 0;
      var q := m / c.size;
      assert m == q * c.size + m % c.size;
      if q >= n {
        MulStep(n, q, c.size);
      }
    }
  }

  /** `MTFlipV`: `q = Vpixels / NumThreads / 2` pairs per thread, rows `ts = t * q`
      through `te = ts + q - 1`. */
  function MTFlipVChunks(v: nat, n: nat): (c: Chunks)
    requires n >= 1
    ensures c.limit <= v / 2
  {
    var q := v / n / 2;
    assert n * (v / n) <= v;
    assert n * q <= (n * (v / n)) / 2;
    Chunks(q, n * q)
  }

  /** When `2 * NumThreads` divides `Vpixels` the `MTFlipV` runs reach the middle. */
  lemma EvenSplitCoversHalf(v: nat, n: nat)
    requires n >= 1 && v % (2 * n) == 0
    ensures MTFlipVChunks(v, n).limit == v / 2
  {
    var k := v / (2 * n);
    assert v == (2 * n) * k;
    MulAssoc(n, k);
    DivMul(n, 2 * k);
    DivMul(2, n * k);
  }

  lemma MulAssoc(n: nat, k: nat)
    ensures (2 * n) * k == n * (2 * k) == 2 * (n * k)
  {
  }

  /** Exact division: `(a * m) / a == m`. */
  lemma DivMul(a: nat, m: nat)
    requires a > 0
    ensures (a * m) / a == m
  {
    var q := (a * m) / a;
    assert a * m == a * q + (a * m) % a;
    if q < m {
      MulStep(q, m, a);
    }
  }

  /** `MTFlipH`: `Vpixels / NumThreads` rows per thread, rows `ts = t * b`
      through `te = ts + b - 1`. */
  function MTFlipHChunks(v: nat, n: nat): (c: Chunks)
    requires n >= 1
    ensures c.limit <= v
  {
    var b := v / n;
    assert n * b <= v;
    Chunks(b, n * b)
  }

  /** For every thread that is started the clamped run is the run the source computes. */
  lemma SourceRange(n: nat, size: nat, t: nat)
    requires t < n
    ensures Lo(Chunks(size, n * size), t) == t * size
    ensures Hi(Chunks(size, n * size), t) == t * size + size
  {
    MulStep(t, n, size);
  }

  /** Dividing `total` indices among `n` threads in runs of `ceil(total / n)`:
      every index is taken. */
  function Balanced(total: nat, n: nat): (c: Chunks)
    requires n >= 1
    ensures c.limit == total && total <= n * c.size
  {
    var size := (total + n - 1) / n;
    assert total + n - 1 == n * size + (total + n - 1) % n;
    Chunks(size, total)
  }
}
