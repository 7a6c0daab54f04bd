# Image flips: MPI, pthreads and OpenMP

A model of three C programs that flip a 24-bit BMP image, top to bottom (vertical flip) or
left to right (horizontal flip):

- `imflipMPI` splits the image's rows among `p` MPI ranks. Every rank but the last gets
  `Vpixels / p` consecutive rows, and the last rank also takes the remainder.
  - A horizontal flip mirrors each rank's own rows.
  - A vertical flip walks every mirror pair `(i, Vpixels-1-i)` on every rank in lockstep.
    The owner of both rows swaps them locally. Otherwise the two owners exchange their rows
    in one `MPI_Sendrecv`.
  - Rank 0 scatters the rows with `MPI_Scatterv` and gathers them back with `MPI_Gatherv`.
- `imflipP` flips a flat buffer of `Vpixels` rows of `Hbytes` bytes.
  - With one thread it uses the serial `FlipImageV` / `FlipImageH`.
  - With more threads it starts `MTFlipV` / `MTFlipH` on `NumThreads` pthreads. Each thread
    works on its own run of row pairs or rows.
- `imflipPM` keeps one buffer per row and picks one of four routines through a function
  pointer: `V`, `H`, `W` (multi-threaded vertical) and `I` (multi-threaded horizontal). It
  calls the routine `REPS = 129` times. The count is odd, so the written image ends up
  flipped once.

The model works on rows.
- An image is a `seq<Row>` and a row is a `seq<bv8>` (`Raster`).
- The flat buffers of the pthread and MPI programs relate to the rows through `Flatten`.
  Byte `c` of row `r` sits at `r * Hbytes + c`.
- Every complete flip is proved equal to a reference definition: `ReverseRows` for the
  vertical flip, and `MirrorEachRow` / `MirrorPixels` for the horizontal one. The pixels are
  reversed and the padding bytes are kept.
- Routines that do only part of that are proved equal to a partial flip instead. These are the
  pthread flips with their uneven row split, which give `MirrorSpan` or a partial row mirror,
  and the as-written OpenMP column sweep, which gives `SwapPrefixRows`.
- The MPI ranks are a `seq` of per-rank row buffers.
  - The vertical flip is a lockstep simulation. `MpiFlip.Step` applies pair `i` on every rank
    at once, and `MPI_Sendrecv` is an atomic exchange of the two rows.
  - `Partition` holds the row partition (`getRank`, `getMyIdx`, `localRows`) and the
    `sendcounts`/`displs` loop. It proves that `Gatherv` after `Scatterv` is the identity.
- The pthreads are modelled one after another in any completion order. Their row runs never
  overlap (`ThreadRanges.ChunksDisjoint`), and the result depends only on which threads ran
  (`PthreadFlip.OrderIrrelevantV`).
- The OpenMP `parallel for` loops are modelled by their sequential loops. Each iteration
  is a function of whatever image the others left (`OmpFlip.Exchange`,
  `OmpFlip.MirrorRowAt`), and any two distinct iterations are proved to commute.
- Command-line handling is modelled per program:
  - `main` is a method `Run` that returns an `Outcome`: `Usage`, `Rejected`, `NoRoutine` or
    `Flipped(image)`.
  - `toupper(argv[3][0])` is `Cli.FlipLetter`.
  - `atoi(argv[4])` is a parameter.
  - `omp_get_max_threads()` is read after `omp_set_num_threads(nthreads)`, so it is the
    thread-count setting (`OmpMain.MaxThreadsAfterSet`). The corrected parse takes the
    machine's thread count `available` as a parameter.

Modules: `Raster`, `Bmp`, `Cli`, `PixelSwap`, `SerialFlip`, `ThreadRanges`, `PthreadFlip`,
`ImflipMain`, `Partition`, `MpiFlip`, `MpiMain`, `OmpFlip`, `OmpMain`.

## Model

| member | source | states |
|---|---|---|
| `Raster.FlattenIndex` | MPI/Imflip.c:74-80 | In a flat buffer of `h`-byte rows, offset `r * h + c` holds byte `c` of row `r` and lies inside the buffer. |
| `Raster.MirrorSpanHalf` | MPI/Imflip.c:48-56 | Swapping every mirror pair below the middle gives the full vertical mirror. The middle row of an odd image is its own mirror. |
| `Bmp.ClearLowTwoBits` | MPI/Imflip.c:172 | Masking a value below 2^32 with C's `~3` clears its two low bits: the result is `x - x % 4`. |
| `Bmp.RowBytes` | MPI/ImflipMPI.c:42 | The stride `(width * 3 + 3) & ~3` is a multiple of four, at least `3 * width` and less than `3 * width + 4`. |
| `Bmp.StrideHoldsPixels` | MPI/Imflip.c:170-172 | A stride taken from the header holds all pixel bytes of a row and pads by at most three bytes. |
| `Cli.ToUpper` | MPI/ImflipMPI.c:189 | Lower-case ASCII letters map to the upper-case letter at the same alphabet position. Every other character is unchanged. |
| `Cli.FlipLetterSelects` | MPI/Imflip.c:208-209 | `toupper(argv[3][0])` is the upper-case letter `u` exactly when the argument starts with `u` or with its lower-case form. An empty argument, read as its terminating NUL, selects no letter. |
| `PixelSwap.SwapOnePixel` | MPI/Imflip.c:73-86 | One trip through the column loop extends the swapped outer band by one pixel on each side. Bytes from `3 * Hpixels` on are unchanged. |
| `PixelSwap.ReverseRowPixels` | MPI/Imflip.c:70-89 | The column loop leaves the row equal to its pixel mirror: pixel `p` moves to `Hpixels-1-p`, its B,G,R order is kept, and the padding is kept. |
| `SerialFlip.FlipImageV` | MPI/Imflip.c:32-60 | The serial vertical flip returns the rows in reverse order, and every row keeps the stride. |
| `SerialFlip.VerticalLoopInvariant` | MPI/Imflip.c:48-56 | After `k` trips, the outer `k` rows at each end hold their mirror rows and the rows between them are untouched. |
| `SerialFlip.VerticalFlatOffsets` | MPI/Imflip.c:51-55 | In the flat buffer after the flip, offset `row * Hbytes + col` holds the byte from offset `(Vpixels-1-row) * Hbytes + col` of the input. |
| `SerialFlip.VerticalFlipFacts` | MPI/Imflip.c:48 | For odd `Vpixels` the middle row stays, and flipping twice restores the image. |
| `SerialFlip.FlipImageH` | MPI/Imflip.c:63-91 | The serial horizontal flip mirrors the pixels of every row and keeps the row order and the stride. |
| `SerialFlip.HorizontalFlipFacts` | MPI/Imflip.c:71-73 | The padding bytes of every row are untouched, and flipping twice restores the image. |
| `ThreadRanges.AllThreads` | MPI/Imflip.c:251 | The threads started are exactly the ids below `NumThreads`. |
| `ThreadRanges.InChunk` | MPI/Imflip.c:107-111 | Thread `t` handles index `m` exactly when `m` is below the limit and `m / size == t`. |
| `ThreadRanges.ChunksDisjoint` | MPI/Imflip.c:131-135 | Two different threads never handle the same index. |
| `ThreadRanges.Coverage` | MPI/Imflip.c:251-253 | When `limit <= n * size`, the threads `0 .. n-1` together handle exactly the indices below the limit. |
| `ThreadRanges.MTFlipVChunks` | MPI/Imflip.c:107-109 | The `MTFlipV` runs of `Vpixels / n / 2` pairs never reach past the middle row. |
| `ThreadRanges.EvenSplitCoversHalf` | MPI/Imflip.c:108 | When `2 * NumThreads` divides `Vpixels`, the `MTFlipV` runs reach the middle exactly. |
| `ThreadRanges.MTFlipHChunks` | MPI/Imflip.c:131-133 | The `MTFlipH` runs of `Vpixels / n` rows never reach past the last row. |
| `ThreadRanges.SourceRange` | MPI/Imflip.c:107-109 | For every started thread, the clamped run is the source's `ts = t * size` through `te = ts + size - 1`. |
| `ThreadRanges.Balanced` | MPI/Imflip.c:131-133 | The corrected runs of `ceil(total / n)` cover all `total` indices for every thread count. |
| `PthreadFlip.Launched` | MPI/Imflip.c:260-262 | After `k` joins, the finished threads are exactly the first `k` entries of the completion order. |
| `PthreadFlip.SwapPairs` | MPI/Imflip.c:111-119 | Exchanging rows through two buffers for the pairs `[lo, hi)` swaps exactly those pairs and leaves every other row in place. |
| `PthreadFlip.MTFlipV` | MPI/Imflip.c:95-123 | Thread `t` swaps exactly the pairs of its run `[t*q, t*q + q)`, with `q = Vpixels / n / 2`. |
| `PthreadFlip.ThreadVStep` | MPI/Imflip.c:111-119 | One more thread finishing adds exactly its own pairs to the swapped set, whatever finished before it. |
| `PthreadFlip.RunThreadsV` | MPI/Imflip.c:247-263 | Starting and joining the threads, in any completion order, swaps the pairs of exactly the threads that ran. |
| `PthreadFlip.OrderIrrelevantV` | MPI/Imflip.c:260-262 | Two completion orders of the same threads give the same image. |
| `PthreadFlip.MTFlipVResult` | MPI/Imflip.c:107-119 | All `n` threads swap the pairs below `n * (Vpixels / n / 2)` and no others. When `2n` divides `Vpixels`, that is the full vertical flip. |
| `PthreadFlip.MTFlipVMissesPairs` | MPI/Imflip.c:108-109 | Six rows on two threads: the pair `(2,3)` is never swapped, so the output is not the vertical flip. |
| `PthreadFlip.BalancedFlipV` | MPI/Imflip.c:95-123 | A thread of the corrected vertical flip swaps exactly its balanced run of pairs. |
| `PthreadFlip.BalancedVIsFlip` | MPI/Imflip.c:107-109 | With balanced runs, all threads together flip the whole image vertically, for every thread count. |
| `PthreadFlip.FlipRowsH` | MPI/Imflip.c:135-157 | The column loop on the rows `[lo, hi)` mirrors exactly those rows and leaves the others untouched. |
| `PthreadFlip.MTFlipH` | MPI/Imflip.c:126-159 | Thread `t` mirrors exactly the rows of its run `[t*b, t*b + b)`, with `b = Vpixels / n`. |
| `PthreadFlip.ThreadHStep` | MPI/Imflip.c:135-157 | One more thread finishing adds exactly its own rows to the mirrored set. |
| `PthreadFlip.RunThreadsH` | MPI/Imflip.c:250-262 | Starting and joining the threads, in any completion order, mirrors the rows of exactly the threads that ran. |
| `PthreadFlip.MTFlipHResult` | MPI/Imflip.c:131-135 | All `n` threads mirror the rows below `Vpixels - Vpixels % n` and leave the last `Vpixels % n` rows untouched. When `n` divides `Vpixels`, every row is mirrored. |
| `PthreadFlip.MTFlipHMissesRows` | MPI/Imflip.c:132-133 | Five rows on two threads: row 4 is never mirrored. |
| `PthreadFlip.BalancedHIsFlip` | MPI/Imflip.c:131-133 | With balanced runs, all threads together mirror every row, for every thread count. |
| `PthreadFlip.BalancedFlipH` | MPI/Imflip.c:126-159 | A thread of the corrected horizontal flip mirrors exactly its balanced run of rows. |
| `ImflipMain.ParseArgs` | MPI/Imflip.c:206-222 | Three arguments mean V with one thread. Four take the letter with one thread. Five also take the thread count. A letter other than V, H or G is rejected before the count is checked, and the count must be in `[1, 128]`. |
| `ImflipMain.SelectRoutine` | MPI/Imflip.c:223-240 | A routine is assigned exactly for V and H. It is a threaded routine exactly when the count is not 1, and a vertical routine exactly for V. |
| `ImflipMain.GrayscaleHasNoRoutine` | MPI/Imflip.c:214-240 | G passes both checks, yet no routine is assigned for it. |
| `ImflipMain.ParseArgsFixed` | MPI/Imflip.c:214-217 | The corrected parser accepts only V and H, and agrees with the original on every other accepted plan. |
| `ImflipMain.FixedPlanHasRoutine` | MPI/Imflip.c:223-240 | Every plan the corrected parser accepts has a routine. |
| `ImflipMain.Ids` | MPI/Imflip.c:251-252 | The thread parameters are `0 .. n-1`, pairwise distinct, with `ThParam[i] == i`. |
| `ImflipMain.IdsLaunchAll` | MPI/Imflip.c:251-262 | Starting and joining the threads `0 .. n-1` runs exactly the threads `0 .. n-1`. |
| `ImflipMain.Dispatch` | MPI/Imflip.c:247-268 | The serial routines flip the whole image. The threaded vertical routine swaps the pairs below the runs' limit, and the threaded horizontal routine mirrors the rows below it. Both are full flips when the thread count divides the image evenly. |
| `ImflipMain.Run` | MPI/Imflip.c:206-268 | Bad arguments print the usage or are rejected, and G ends in a call through an unassigned pointer. One thread flips the whole image. More threads give the partial results of the threaded routines. |
| `ImflipMain.RunFixed` | MPI/Imflip.c:206-268 | With G rejected and balanced runs, every accepted V run is the vertical flip and every accepted H run is the horizontal flip, for every thread count. |
| `Partition.BlockBounds` | MPI/ImflipMPI.c:202-203 | Each rank's block ends where the next one starts, and the last block ends at `Vpixels`. |
| `Partition.GetRank` | MPI/ImflipMPI.c:97-101 | `getRank(g)` is a rank whose block holds row `g`. |
| `Partition.BlocksDisjoint` | MPI/ImflipMPI.c:202-203 | No row lies in two ranks' blocks. |
| `Partition.GetRankIff` | MPI/ImflipMPI.c:97-101 | `getRank(g) == r` exactly when `r`'s block holds `g`. Every row from the last rank's start on, including every row when `Vpixels < p`, belongs to the last rank. |
| `Partition.GetMyIdx` | MPI/ImflipMPI.c:103-106 | For a row the rank owns, `getMyIdx` is a valid local index whose global position is that row. |
| `Partition.ScatterPlan` | MPI/ImflipMPI.c:215-227 | `sendcounts[i]` is rank `i`'s rows times the stride. `displs` starts at 0 and is the running sum of the counts, so `displs[i]` is rank `i`'s first row times the stride. The buffers do not overlap, and the last one ends at the image size. |
| `Partition.Scatter` | MPI/ImflipMPI.c:230-231 | `Scatterv` gives `p` buffers, and rank `r`'s buffer holds `localRows(r)` rows. |
| `Partition.BlockAt` | MPI/ImflipMPI.c:202-204 | Local row `k` of rank `r` is global row `r * rowsPerProc + k`. |
| `Partition.GatherScatter` | MPI/ImflipMPI.c:248-250 | `Gatherv` of what `Scatterv` sent rebuilds the image. |
| `Partition.ScatterGather` | MPI/ImflipMPI.c:230-231 | Scattering what was gathered gives every rank its buffer back. |
| `Partition.GatherIndex` | MPI/ImflipMPI.c:248-250 | Row `g` of the gathered image is row `getMyIdx(g)` of rank `getRank(g)`. |
| `Partition.ScattervBytes` | MPI/ImflipMPI.c:230-231 | The bytes `[displs[r], displs[r] + sendcounts[r])` of the flat image are exactly the bytes of rank `r`'s rows. |
| `MpiFlip.Classify` | MPI/ImflipMPI.c:128-132 | A pair is local exactly when both rows have one owner. The owners named own the rows. |
| `MpiFlip.RoleOf` | MPI/ImflipMPI.c:132-152 | A rank swaps locally, initiates, responds or skips exactly according to which of the pair's two rows it owns. The local indices it uses point at those rows, and its partner owns the other row. |
| `MpiFlip.PairActors` | MPI/ImflipMPI.c:132-150 | A local pair is handled by its owner alone. A remote pair is handled by its two owners alone, the top owner initiating and the bottom owner responding. |
| `MpiFlip.PartnerAnswers` | MPI/ImflipMPI.c:142-147 | The partner an exchanging rank names exchanges too, in the opposite role, and names that rank back. |
| `MpiFlip.RolesPaired` | MPI/ImflipMPI.c:158-160 | At every pair index, rank `a` calls `Sendrecv` naming `b` exactly when `b` calls it naming `a`. |
| `MpiFlip.SingleRankNeverExchanges` | MPI/ImflipMPI.c:98 | With one rank every pair is local, so no message is sent. |
| `MpiFlip.TenRowsThreeRanks` | MPI/ImflipMPI.c:97-101 | Ten rows on three ranks: blocks of 3, 3 and 4 rows. Pairs 0-2 exchange between ranks 0 and 2, pair 3 between ranks 1 and 2, and pair 4 is local to rank 1. |
| `MpiFlip.StepRowAt` | MPI/ImflipMPI.c:132-165 | After pair `i`, each local row holds the row at its global position in the image with rows `i` and `Vpixels-1-i` swapped. |
| `MpiFlip.StepRank` | MPI/ImflipMPI.c:132-165 | After pair `i`, each rank holds its block of the image with that pair swapped. |
| `MpiFlip.StepSwapsPair` | MPI/ImflipMPI.c:127-166 | One lockstep iteration swaps global rows `i` and `Vpixels-1-i` and nothing else. |
| `MpiFlip.StepExtendsMirror` | MPI/ImflipMPI.c:127-166 | Each iteration extends the swapped span of the gathered image by one pair. |
| `MpiFlip.FlipImageV` | MPI/ImflipMPI.c:111-169 | Run on all ranks, the loop leaves the gathered image flipped vertically. Local row `k` of rank `r` holds global row `Vpixels-1-(r*rowsPerProc+k)`. The buffer shapes are unchanged. |
| `MpiFlip.ReversedOnRanks` | MPI/ImflipMPI.c:111-169 | A reversed gather means every rank's local rows are the mirrors of their global rows. |
| `MpiFlip.MiddleRowStays` | MPI/ImflipMPI.c:113 | For odd `Vpixels` the middle row stays on its owner, at its local index. |
| `MpiFlip.ExchangeIndices` | MPI/ImflipMPI.c:127-160 | The pair indices at which `a` calls `Sendrecv` naming `b`, listed in loop order, completely. |
| `MpiFlip.LockstepMatching` | MPI/ImflipMPI.c:127-160 | The `k`-th call of `a` naming `b` happens at the same pair index as the `k`-th call of `b` naming `a`, so every `Sendrecv` meets its partner's. |
| `MpiFlip.FlipImageH` | MPI/ImflipMPI.c:69-92 | A rank's horizontal flip mirrors each of its local rows. |
| `MpiFlip.FlipHNeedsNoExchange` | MPI/ImflipMPI.c:67-92 | Mirroring every rank's rows and then gathering equals mirroring the gathered image, so the horizontal flip needs no coordination. |
| `MpiMain.ScatterKeepsStride` | MPI/ImflipMPI.c:202-204 | Every scattered row still holds all of its pixels. |
| `MpiMain.FlipEveryRankH` | MPI/ImflipMPI.c:238-240 | Every rank's rows are mirrored. |
| `MpiMain.Run` | MPI/ImflipMPI.c:182-250 | Fewer than four arguments print the usage. V gathers the vertically flipped image and H the horizontally flipped one, on any number of ranks. Any other letter exits. |
| `OmpFlip.ColumnsTouched` | OpenMP/ImageFlip.c:11-24 | The byte columns `FlipVertical` writes are a multiple of three and at least `Hbytes`, but fewer than `Hbytes + 3`. |
| `OmpFlip.ColumnGroups` | OpenMP/ImageFlip.c:11 | The column loop runs `ceil(Hbytes / 3)` times and stops at `ColumnsTouched(Hbytes)`. |
| `OmpFlip.SweepStep3` | OpenMP/ImageFlip.c:14-24 | One trip of the row loop exchanges three more bytes of one pair and nothing else. |
| `OmpFlip.SweepColumn3` | OpenMP/ImageFlip.c:12-27 | The row loop for one column group exchanges those three bytes of every mirror pair. |
| `OmpFlip.FlipVertical` | OpenMP/ImageFlip.c:5-29 | As written, each row takes the first `ColumnsTouched(Hbytes)` bytes of its mirror row. |
| `OmpFlip.FlipVerticalOverrun` | OpenMP/ImageFlip.c:11-24 | The sweep writes past `Hbytes` exactly when `Hbytes` is not a multiple of three. A one-pixel image with a four-byte stride touches columns 4 and 5. |
| `OmpFlip.FlipVerticalInBounds` | OpenMP/ImageFlip.c:5-29 | The corrected sweep, which stops at `Hbytes`, exchanges exactly the first `Hbytes` bytes of every pair. On rows of `Hbytes` bytes that is the vertical flip. |
| `OmpFlip.MiddleRowKept` | OpenMP/ImageFlip.c:13-26 | The row loop stops below the middle row of an odd-height image, and the sweep leaves that row as it was. |
| `OmpFlip.FlipHorizontal` | OpenMP/ImageFlip.c:31-54 | Every row's pixels are mirrored. |
| `OmpFlip.Exchange` | OpenMP/ImageFlip.c:64-71 | One iteration, on any image, exchanges the first `Hbytes` bytes of row `row` and of its mirror. Their tails and every other row are unchanged. |
| `OmpFlip.ExchangesCommute` | OpenMP/ImageFlip.c:63-71 | Two distinct iterations of the vertical `parallel for` give the same image in either order. |
| `OmpFlip.ExchangeThroughBuffers` | OpenMP/ImageFlip.c:64-71 | Copying the two rows' first `Hbytes` bytes out to the buffers and back crosswise performs `Exchange`, from any image. |
| `OmpFlip.FlipVerticalMultiThreaded` | OpenMP/ImageFlip.c:56-72 | Each row takes the first `Hbytes` bytes of its mirror row. On rows of `Hbytes` bytes that is the vertical flip. |
| `OmpFlip.MirrorPrefix` | OpenMP/ImageFlip.c:83-100 | Mirroring a copy of the first `Hbytes` bytes and copying it back mirrors the row. |
| `OmpFlip.MirrorRowAt` | OpenMP/ImageFlip.c:82-101 | One iteration, on any image, pixel-mirrors row `row` and leaves every other row unchanged. |
| `OmpFlip.MirrorRowsCommute` | OpenMP/ImageFlip.c:81-101 | Two distinct iterations of the horizontal `parallel for` give the same image in either order. |
| `OmpFlip.MirrorThroughBuffer` | OpenMP/ImageFlip.c:83-100 | Mirroring the pixels of a buffered copy of the first `Hbytes` bytes and copying it back performs `MirrorRowAt`, from any image. |
| `OmpFlip.FlipHorizontalMultiThreaded` | OpenMP/ImageFlip.c:74-102 | Every row's pixels are mirrored through the row buffer. |
| `OmpFlip.VerticalVariantsAgree` | OpenMP/ImageFlip.c:5-72 | When `Hbytes` is a multiple of three, the column sweep and the buffered row exchange give the same image. |
| `OmpMain.ParseArgs` | OpenMP/main.c:89-124 | Three arguments mean V with one thread. Four take the letter with one thread. Five take the count. Any other argument count prints the usage. The count has already been set when `omp_get_max_threads()` is read, so it is rejected exactly when it is negative. |
| `OmpMain.UpperBoundNeverFires` | OpenMP/main.c:100-118 | The upper bound of the thread check never rejects anything: every non-negative count is accepted, 1000 included. |
| `OmpMain.ParseArgsChecked` | OpenMP/main.c:89-124 | With the count checked against the machine's maximum before it is set, an accepted count lies in `[0, available]`. A five-argument run is rejected exactly when its count lies outside that range. Otherwise the outcome is the same as `ParseArgs`. |
| `OmpMain.PickSingle` | OpenMP/main.c:25-43 | Exactly V, H, W and I are accepted. V and W flip vertically, and W and I pick the multi-threaded routines. |
| `OmpMain.PickMulti` | OpenMP/main.c:53-67 | Exactly V, H, W and I are accepted. Every choice is multi-threaded, and the vertical one is chosen exactly for V and W. |
| `OmpMain.FlipTypeToString` | OpenMP/main.c:69-80 | The printed name is `Vertical (V)` exactly for V and W, `Horizontal (H)` exactly for H and I, and `Unknown` for every other letter. |
| `OmpMain.NameMatchesPick` | OpenMP/main.c:133-140 | A letter is accepted by the picker exactly when its printed name is known, and the name says which way the chosen routine flips. |
| `OmpMain.EffectInvolution` | OpenMP/main.c:17 | Every routine undoes itself, which is why an odd `REPS` leaves the image flipped. |
| `OmpMain.Call` | OpenMP/main.c:146 | A call through `FlipFunc` flips along the routine's axis and keeps the image's shape. Only the multi-threaded routines need a row to fit their 16384-byte buffers. |
| `OmpMain.RunReps` | OpenMP/main.c:145-147 | After the 129 calls the image is flipped exactly once. |
| `OmpMain.Execute` | OpenMP/main.c:133-147 | After the argument check: a plan that is not `Go` ends the run, an unknown letter is rejected, V and W write the vertically flipped image, and H and I the horizontally flipped one. |
| `OmpMain.Run` | OpenMP/main.c:89-147 | Bad argument counts print the usage. Negative thread counts and unknown letters are rejected. Every other count, 1000 included, writes the vertically flipped image for V and W and the horizontally flipped one for H and I. The row-width bound applies only when a multi-threaded routine is chosen. |
| `OmpMain.RunChecked` | OpenMP/main.c:89-147 | The corrected program also rejects a count above `available`, checked before the count is set. Every accepted run flips as `Run` does. |
| `OmpMain.WideRowsSingleThread` | OpenMP/ImageFlip.c:31-54 | A single-thread run accepts rows wider than 16384 bytes, which the multi-threaded routines' buffers cannot hold. |

## Left out

- File I/O: `ReadBMP`, `ReadBMPlin`, `WriteBMP`, `WriteBMPlin` and the 54-byte header are not modelled. `ImageStuff.c` is not part of this model. The image and its `ImgProp` are parameters.
- MPI runtime: `MPI_Init`, `MPI_Comm_rank`/`size`, `MPI_Bcast` of `ip`, `MPI_Barrier` and `MPI_Finalize`. Every rank is assumed to see the same `ip` and `Flip`. `Sendrecv` is modelled as an atomic row exchange, so deadlock freedom is shown only as call matching (`MpiFlip.LockstepMatching`).
- Timing: `gettimeofday`, `MPI_Wtime`, the `sendrecvOH`/`comm_time` sums and all printing are left out.
- Allocation failures: `malloc` returning `NULL` and the `MPI_Abort`/`exit` that follow are left out.
- Thread creation errors: `pthread_create` failures are left out, and so are the thread attributes.
- Scheduling: the OpenMP `parallel for` loops are modelled by their sequential loop. Any two iterations commute (`OmpFlip.ExchangesCommute`, `OmpFlip.MirrorRowsCommute`), so every order of them gives the same image. Iterations running at the same time are not modelled.
- Buffer size: `FlipVerticalMT` and `FlipHorizontalMT` copy a row into 16384-byte stack buffers, so they require `Hbytes <= 16384`, which the source does not check. The single-thread OpenMP routines have no buffer and accept rows of any width.
- Integer overflow: `int` and `long` overflow of `row * Hbytes`, `Vpixels * Hbytes` and the byte counts is not modelled; integers are unbounded.
- Bmp.RowBytes: the contract requires `width * 3 + 3` to fit in a C `int`. The source does not check this, and overflow there is undefined behaviour.
- Cli.ToUpper: only ASCII letters are upper-cased, as in the C locale.
- `atoi(argv[4])` is a parameter.
- Non-positive thread counts: OpenMP leaves `omp_set_num_threads` with a non-positive count to the implementation. The model follows libgomp, which then reports 1. Under any implementation that reports at least 1, only negative counts are rejected.
- `REPS == 1` in the pthread program: the routine is called once, and the timing division is left out.
- OmpMain.Call: a V run with 0 or 1 threads calls `FlipVertical`, modelled by `OmpFlip.FlipVerticalInBounds`, the in-bounds sweep. A W run, or a V run with more threads, calls `FlipVerticalMT`. The as-written sweep writes past the row whenever `Hbytes % 3 != 0`, which C does not define (see Findings).
- The machine's thread count: in `OmpMain.RunChecked`, `available` is what `omp_get_max_threads()` reports before the count is set, and it is a parameter.
- ImflipMain.Run: a G run ends in `NoRoutine`, standing for a call through a function pointer that was never assigned. The crash itself is not modelled.
- The OpenCL program and `pi.c` are not part of this model.

## Findings

| source | as written | input that shows it | evidently intended | confidence | as-written member | corrected member |
|---|---|---|---|---|---|---|
| MPI/Imflip.c:107-109 | `MTFlipV` gives each thread `Vpixels / NumThreads / 2` pairs, and the remainder pairs go to no thread | `Vpixels = 6`, `NumThreads = 2`: the pair `(2,3)` is never swapped | every pair below the middle swapped by some thread | high, not executed | `PthreadFlip.MTFlipVMissesPairs` | `PthreadFlip.BalancedVIsFlip` |
| MPI/Imflip.c:131-133 | `MTFlipH` gives each thread `Vpixels / NumThreads` rows, and the last `Vpixels % NumThreads` rows go to no thread | `Vpixels = 5`, `NumThreads = 2`: row 4 is never mirrored | every row mirrored by some thread | high, not executed | `PthreadFlip.MTFlipHMissesRows` | `PthreadFlip.BalancedHIsFlip` |
| OpenMP/ImageFlip.c:11-24 | the column loop writes `col + 1` and `col + 2` for every `col < Hbytes`, stepping by 3 | `Hpixels = 1`, `Hbytes = 4`: columns 4 and 5 of each row are written, past its `Hbytes = 4` bytes | the sweep stays inside the `Hbytes` bytes of each row | high, not executed | `OmpFlip.FlipVerticalOverrun` | `OmpFlip.FlipVerticalInBounds` |
| MPI/Imflip.c:214-240 | the letter check accepts `G`, but the routine selection assigns nothing for it | `imflipP in.bmp out.bmp g 1`: `FlipFunc` is never assigned and is then called | reject every letter that has no routine | high, not executed | `ImflipMain.GrayscaleHasNoRoutine` | `ImflipMain.FixedPlanHasRoutine` |
| OpenMP/main.c:118 | `nthreads > MAXTHREADS` is tested after `omp_set_num_threads(nthreads)` (lines 92, 97, 102), and `MAXTHREADS` is `omp_get_max_threads()`, which then reports `nthreads` itself | `imflipPM in.bmp out.bmp w 1000` on a 4-core machine: the count 1000 is accepted | reject a count above the number of threads the machine offers | high, not executed | `OmpMain.UpperBoundNeverFires` | `OmpMain.ParseArgsChecked` |
