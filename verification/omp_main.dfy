/** `main` of the OpenMP program: argument handling, the two function pickers, the
    printed flip name, and the `REPS` calls through the chosen function pointer. */
module OmpMain {
  import opened Raster
  import opened Bmp
  import opened Cli
  import opened OmpFlip

  /** Odd, so that the image ends up flipped after all repetitions. */
  const REPS := 129

  /** The four routines `FlipFunc` can point to. */
  datatype FlipFunc = Vertical | Horizontal | VerticalMT | HorizontalMT

  /** The routines that flip top to bottom. */
  predicate FlipsRows(f: FlipFunc)
  {
    f == Vertical || f == VerticalMT
  }

  /** What `main` decided from its arguments; an unknown letter is only noticed by the picker. */
  datatype Plan = ShowUsage | BadThreads(threads: int) | Go(letter: char, threads: int)

  /** What `omp_get_max_threads()` reports right after `omp_set_num_threads(n)`: the
      thread-count setting `n` for positive `n`. OpenMP leaves a non-positive `n` to the
      implementation; the model takes libgomp's choice, a setting of 1. */
  function MaxThreadsAfterSet(n: int): (m: int)
    ensures m >= 1
  {
    if n >= 1 then n else 1
  }

  /** The switch on `argc`, then the check `0 <= nthreads <= MAXTHREADS`. `MAXTHREADS` is
      `omp_get_max_threads()`, read after the switch has already called
      `omp_set_num_threads(nthreads)`, so only a negative count is ever rejected. */
  function ParseArgs(argc: int, flipArg: string, threadsArg: int): (plan: Plan)
    ensures plan == ShowUsage <==> argc != 3 && argc != 4 && argc != 5
    ensures plan.BadThreads? <==> argc == 5 && threadsArg < 0
    ensures plan.Go? ==> 0 <= plan.threads
    ensures argc == 3 ==> plan == Go('V', 1)
    ensures argc == 4 ==> plan == Go(FlipLetter(flipArg), 1)
    ensures argc == 5 && threadsArg >= 0 ==> plan == Go(FlipLetter(flipArg), threadsArg)
  {
    if argc != 3 && argc != 4 && argc != 5 then ShowUsage
    else
      var threads := if argc == 5 then threadsArg else 1;
      var flip := if argc == 3 then 'V' else FlipLetter(flipArg);
      var maxThreads := MaxThreadsAfterSet(threads);
      if threads < 0 || threads > maxThreads then BadThreads(threads)
      else Go(flip, threads)
  }

  /** The upper bound of the thread check never fires: a count of 1000 is accepted, whatever
      the machine offers. */
  lemma UpperBoundNeverFires(flipArg: string, threadsArg: int)
    ensures threadsArg >= 0 ==> ParseArgs(5, flipArg, threadsArg) == Go(FlipLetter(flipArg), threadsArg)
    ensures ParseArgs(5, "w", 1000) == Go('W', 1000)
  {
    assert FlipLetter("w") == 'W' by {
      assert FirstChar("w") == 'w';
    }
  }

  /** The check as evidently intended: `available` is what `omp_get_max_threads()` reports
      before `omp_set_num_threads`, and the count is checked against it before being set. */
  function ParseArgsChecked(argc: int, flipArg: string, threadsArg: int, available: int): (plan: Plan)
    ensures plan == ShowUsage <==> argc != 3 && argc != 4 && argc != 5
    ensures plan.Go? ==> 0 <= plan.threads <= available
    ensures argc == 5 ==> (plan.BadThreads? <==> threadsArg < 0 || threadsArg > available)
    ensures (argc == 5 ==> threadsArg <= available) && 1 <= available ==>
      plan == ParseArgs(argc, flipArg, threadsArg)
  {
    if argc != 3 && argc != 4 && argc != 5 then ShowUsage
    else
      var threads := if argc == 5 then threadsArg else 1;
      var flip := if argc == 3 then 'V' else FlipLetter(flipArg);
      if threads < 0 || threads > available then BadThreads(threads)
      else Go(flip, threads)
  }

  /** `PickFlipFunctionSingleThread`: every letter names its own routine. */
  function PickSingle(c: char): (f: Option<FlipFunc>)
    ensures f.Some? <==> c in {'V', 'H', 'W', 'I'}
    ensures f.Some? ==> (FlipsRows(f.value) <==> c == 'V' || c == 'W')
    ensures f.Some? ==> (f.value == VerticalMT || f.value == HorizontalMT <==> c == 'W' || c == 'I')
  {
    match c
    case 'V' => Some(Vertical)
    case 'H' => Some(Horizontal)
    case 'W' => Some(VerticalMT)
    case 'I' => Some(HorizontalMT)
    case _ => None
  }

  /** `PickFlipFunctionMultiThread`: the plain and the memory-friendly letters share the
      multi-threaded routine. */
  function PickMulti(c: char): (f: Option<FlipFunc>)
    ensures f.Some? <==> c in {'V', 'H', 'W', 'I'}
    ensures f.Some? ==> (FlipsRows(f.value) <==> c == 'V' || c == 'W')
    ensures f.Some? ==> f.value == VerticalMT || f.value == HorizontalMT
  {
    match c
    case 'V' => Some(VerticalMT)
    case 'W' => Some(VerticalMT)
    case 'H' => Some(HorizontalMT)
    case 'I' => Some(HorizontalMT)
    case _ => None
  }

  /** `flipTypeToString`. */
  function FlipTypeToString(c: char): (name: string)
    ensures name == "Vertical (V)" || name == "Horizontal (H)" || name == "Unknown"
    ensures name == "Vertical (V)" <==> c == 'V' || c == 'W'
    ensures name == "Horizontal (H)" <==> c == 'H' || c == 'I'
  {
    match c
    case 'V' => "Vertical (V)"
    case 'W' => "Vertical (V)"
    case 'H' => "Horizontal (H)"
    case 'I' => "Horizontal (H)"
    case _ => "Unknown"
  }

  /** The picker `main` uses: the single-thread one for 0 or 1 threads. */
  function Pick(c: char, threads: int): (f: Option<FlipFunc>)
  {
    if threads == 0 || threads == 1 then PickSingle(c) else PickMulti(c)
  }

  /** The printed flip name tells the truth: a letter is accepted by the pickers exactly
      when its name is known, and the name says which way the chosen routine flips. */
  lemma NameMatchesPick(c: char, threads: int)
    ensures Pick(c, threads).Some? <==> FlipTypeToString(c) != "Unknown"
    ensures Pick(c, threads).Some? ==>
      (FlipsRows(Pick(c, threads).value) <==> FlipTypeToString(c) == "Vertical (V)")
    ensures PickSingle(c).Some? <==> PickMulti(c).Some?
  {
  }

  /** Every row holds `hp` pixels. */
  predicate HoldsPixels(img: Image, hp: nat)
  {
    forall k :: 0 <= k < |img| ==> 3 * hp <= |img[k]|
  }

  /** One call through `FlipFunc`: the image flipped along its routine's axis. */
  function Effect(f: FlipFunc, img: Image, hp: nat): (r: Image)
    requires HoldsPixels(img, hp)
    ensures |r| == |img| && HoldsPixels(r, hp)
  {
    if FlipsRows(f) then
      assert forall k :: 0 <= k < |img| ==> ReverseRows(img)[k] == img[|img| - 1 - k];
      ReverseRows(img)
    else MirrorEachRow(img, hp)
  }

  /** Every routine undoes itself. */
  lemma EffectInvolution(f: FlipFunc, img: Image, hp: nat)
    requires HoldsPixels(img, hp)
    ensures Effect(f, Effect(f, img, hp), hp) == img
  {
    if FlipsRows(f) {
      ReverseRowsInvolution(img);
    } else {
      MirrorEachRowInvolution(img, hp);
    }
  }

  /** The image as the routines see it: `Vpixels` rows of `Hbytes` bytes each, holding
      `Hpixels` pixels. */
  predicate Loaded(img: Image, ip: ImgProp)
  {
    |img| == ip.vpixels && Uniform(img, ip.hbytes) && 3 * ip.hpixels <= ip.hbytes
  }

  /** The multi-threaded routines copy a row into `ROW_BUFFER`-byte stack buffers; the
      single-thread ones work in place on rows of any width. */
  predicate BufferFits(f: FlipFunc, ip: ImgProp)
  {
    (f == VerticalMT || f == HorizontalMT) ==> ip.hbytes <= ROW_BUFFER
  }

  /** A call through `FlipFunc`. The vertical single-thread routine is taken in its
      in-bounds form. */
  method Call(f: FlipFunc, img: Image, ip: ImgProp) returns (out: Image)
    requires Loaded(img, ip) && BufferFits(f, ip)
    ensures Loaded(out, ip)
    ensures out == Effect(f, img, ip.hpixels)
  {
    match f {
      case Vertical =>
        out := FlipVerticalInBounds(img, ip.hbytes);
      case Horizontal =>
        out := FlipHorizontal(img, ip.hpixels);
      case VerticalMT =>
        out := FlipVerticalMultiThreaded(img, ip.hbytes);
      case HorizontalMT =>
        out := FlipHorizontalMultiThreaded(img, ip.hpixels, ip.hbytes);
    }
  }

  /** The timing loop: `REPS` calls through `FlipFunc`; after an even number of calls the
      image is back where it started, after an odd number it is flipped once. */
  method RunReps(f: FlipFunc, img: Image, ip: ImgProp) returns (out: Image)
    requires Loaded(img, ip) && BufferFits(f, ip)
    ensures out == Effect(f, img, ip.hpixels)
  {
    out := img;
    var a := 0;
    ghost var odd := false;
    while a < REPS
      invariant 0 <= a <= REPS && odd == (a % 2 == 1)
      invariant Loaded(out, ip)
      invariant out == if odd then Effect(f, img, ip.hpixels) else img
    {
      RepStep(f, img, ip.hpixels, out, odd);
      out := Call(f, out, ip);
      a, odd := a + 1, !odd;
    }
  }

  /** One more call moves the image from the flipped state to the original and back. */
  lemma RepStep(f: FlipFunc, img: Image, hp: nat, cur: Image, odd: bool)
    requires HoldsPixels(img, hp)
    requires cur == if odd then Effect(f, img, hp) else img
    ensures Effect(f, cur, hp) == if odd then img else Effect(f, img, hp)
  {
    if odd {
      EffectInvolution(f, img, hp);
    }
  }

  /** The routine `main` ends up calling for a plan, if the picker accepts its letter. */
  function Chosen(plan: Plan): (f: Option<FlipFunc>)
  {
    if plan.Go? then Pick(plan.letter, plan.threads) else None
  }

  /** Everything after the argument check: a plan that is not `Go` ends the run, an unknown
      letter is rejected by the picker, and otherwise the routine runs `REPS` times. */
  method Execute(plan: Plan, img: Image, ip: ImgProp) returns (o: Outcome)
    requires Loaded(img, ip)
    requires Chosen(plan).Some? ==> BufferFits(Chosen(plan).value, ip)
    ensures plan == ShowUsage <==> o == Usage
    ensures plan.BadThreads? ==> o == Rejected
    ensures plan.Go? ==>
      (plan.letter == 'V' || plan.letter == 'W' ==> o == Flipped(ReverseRows(img))) &&
      (plan.letter == 'H' || plan.letter == 'I' ==> o == Flipped(MirrorEachRow(img, ip.hpixels))) &&
      (FlipTypeToString(plan.letter) == "Unknown" ==> o == Rejected)
  {
    if plan == ShowUsage {
      return Usage;
    }
    if plan.BadThreads? {
      return Rejected;
    }
    var f := Pick(plan.letter, plan.threads);
    if f.None? {
      return Rejected;
    }
    var out := RunReps(f.value, img, ip);
    o := Flipped(out);
  }

  /** The program as written: a bad argument count prints the usage, a negative thread
      count and an unknown letter are rejected, and every other count, however large,
      writes the image flipped along the axis the letter names. Rows wider than the stack
      buffers are excluded only when a multi-threaded routine is chosen. */
  method Run(argc: int, flipArg: string, threadsArg: int, img: Image, ip: ImgProp)
    returns (o: Outcome)
    requires Loaded(img, ip)
    requires Chosen(ParseArgs(argc, flipArg, threadsArg)).Some? ==>
      BufferFits(Chosen(ParseArgs(argc, flipArg, threadsArg)).value, ip)
    ensures o == Usage <==> argc != 3 && argc != 4 && argc != 5
    ensures argc == 5 && threadsArg < 0 ==> o == Rejected
    ensures (argc == 3 || argc == 4 || argc == 5) && (argc == 5 ==> threadsArg >= 0) ==>
      var c := if argc == 3 then 'V' else FlipLetter(flipArg);
      (c == 'V' || c == 'W' ==> o == Flipped(ReverseRows(img))) &&
      (c == 'H' || c == 'I' ==> o == Flipped(MirrorEachRow(img, ip.hpixels))) &&
      (FlipTypeToString(c) == "Unknown" ==> o == Rejected)
  {
    o := Execute(ParseArgs(argc, flipArg, threadsArg), img, ip);
  }

  /** The program with the thread count checked against the `available` threads before it
      is set: as `Run`, except that a count above `available` is rejected too. */
  method RunChecked(argc: int, flipArg: string, threadsArg: int, available: int, img: Image, ip: ImgProp)
    returns (o: Outcome)
    requires Loaded(img, ip)
    requires Chosen(ParseArgsChecked(argc, flipArg, threadsArg, available)).Some? ==>
      BufferFits(Chosen(ParseArgsChecked(argc, flipArg, threadsArg, available)).value, ip)
    ensures o == Usage <==> argc != 3 && argc != 4 && argc != 5
    ensures argc == 5 && (threadsArg < 0 || threadsArg > available) ==> o == Rejected
    ensures (argc == 3 || argc == 4 || argc == 5) && (argc == 5 ==> 0 <= threadsArg <= available) && 1 <= available ==>
      var c := if argc == 3 then 'V' else FlipLetter(flipArg);
      (c == 'V' || c == 'W' ==> o == Flipped(ReverseRows(img))) &&
      (c == 'H' || c == 'I' ==> o == Flipped(MirrorEachRow(img, ip.hpixels))) &&
      (FlipTypeToString(c) == "Unknown" ==> o == Rejected)
  {
    o := Execute(ParseArgsChecked(argc, flipArg, threadsArg, available), img, ip);
  }

  /** A single-thread run accepts a row of any width: 6000 pixels, 18000 bytes per row. */
  lemma WideRowsSingleThread(img: Image, ip: ImgProp)
    requires ip == ImgProp(6000, |img|, 18000) && Uniform(img, 18000)
    ensures Loaded(img, ip)
    ensures Chosen(ParseArgs(4, "h", 0)) == Some(Horizontal) && BufferFits(Horizontal, ip)
    ensures !BufferFits(HorizontalMT, ip)
  {
    assert FlipLetter("h") == 'H' by {
      assert FirstChar("h") == 'h';
    }
  }
}
