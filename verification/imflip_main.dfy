/** `main` of the pthread program: argument defaults, validation of the flip letter
    and the thread count, the choice of flip routine, and the run itself
    (`REPS` is 1 there, so the routine runs once). */
module ImflipMain {
  import opened Raster
  import opened Bmp
  import opened Cli
  import opened ThreadRanges
  import PthreadFlip
  import SerialFlip

  const MAXTHREADS := 128

  /** What `main` decided from its arguments. */
  datatype Plan = ShowUsage | BadFlip(letter: char) | BadThreads(threads: int) | Go(letter: char, threads: int)

  /** The flip routine a function pointer ends up holding. */
  datatype Routine = SerialV | SerialH | ThreadedV | ThreadedH

  predicate Accepted(letter: char)
  {
    letter == 'V' || letter == 'H' || letter == 'G'
  }

  /** Argument handling: `argc == 3` flips vertically with one thread, `argc == 4` takes the
      letter with one thread, `argc == 5` also takes `atoi(argv[4])` threads; the letter must
      be V, H or G and the thread count within `[1, MAXTHREADS]`, letter checked first. */
  function ParseArgs(argc: int, flipArg: string, threadsArg: int): (plan: Plan)
    ensures plan == ShowUsage <==> argc != 3 && argc != 4 && argc != 5
    ensures plan.Go? ==> Accepted(plan.letter) && 1 <= plan.threads <= MAXTHREADS
    ensures argc == 3 ==> plan == Go('V', 1)
    ensures argc == 4 ==> plan == (if Accepted(FlipLetter(flipArg)) then Go(FlipLetter(flipArg), 1)
                                   else BadFlip(FlipLetter(flipArg)))
    ensures argc == 5 && !Accepted(FlipLetter(flipArg)) ==> plan == BadFlip(FlipLetter(flipArg))
    ensures argc == 5 && Accepted(FlipLetter(flipArg)) ==>
      (plan.Go? <==> 1 <= threadsArg <= MAXTHREADS) && (plan.Go? ==> plan == Go(FlipLetter(flipArg), threadsArg))
  {
    if argc != 3 && argc != 4 && argc != 5 then ShowUsage
    else
      var threads := if argc == 5 then threadsArg else 1;
      var flip := if argc == 3 then 'V' else FlipLetter(flipArg);
      if flip != 'V' && flip != 'H' && flip != 'G' then BadFlip(flip)
      else if threads < 1 || threads > MAXTHREADS then BadThreads(threads)
      else Go(flip, threads)
  }

  /** The pointer assignment: threaded routines for more than one thread, serial ones
      otherwise; nothing is assigned for 'G'. */
  function SelectRoutine(letter: char, threads: int): (r: Option<Routine>)
    ensures r.Some? <==> letter == 'V' || letter == 'H'
    ensures r.Some? ==> ((r.value == ThreadedV || r.value == ThreadedH) <==> threads != 1)
    ensures r.Some? ==> ((r.value == SerialV || r.value == ThreadedV) <==> letter == 'V')
  {
    if threads != 1 then
      if letter == 'V' then Some(ThreadedV) else if letter == 'H' then Some(ThreadedH) else None
    else
      if letter == 'V' then Some(SerialV) else if letter == 'H' then Some(SerialH) else None
  }

  /** 'G' passes validation, yet no routine is ever assigned for it. */
  lemma GrayscaleHasNoRoutine(flipArg: string, threads: int)
    requires FlipLetter(flipArg) == 'G'
    ensures ParseArgs(4, flipArg, 0) == Go('G', 1)
    ensures 1 <= threads <= MAXTHREADS ==> ParseArgs(5, flipArg, threads) == Go('G', threads)
    ensures SelectRoutine('G', threads) == None
  {
  }

  /** Argument handling with 'G' rejected alongside every other unsupported letter. */
  function ParseArgsFixed(argc: int, flipArg: string, threadsArg: int): (plan: Plan)
    ensures plan.Go? ==> (plan.letter == 'V' || plan.letter == 'H') && 1 <= plan.threads <= MAXTHREADS
    ensures ParseArgs(argc, flipArg, threadsArg).Go? && ParseArgs(argc, flipArg, threadsArg).letter != 'G'
            ==> plan == ParseArgs(argc, flipArg, threadsArg)
  {
    match ParseArgs(argc, flipArg, threadsArg)
    case Go(letter, threads) => if letter == 'G' then BadFlip(letter) else Go(letter, threads)
    case other => other
  }

  /** Every accepted plan of the corrected parser has a routine. */
  lemma FixedPlanHasRoutine(argc: int, flipArg: string, threadsArg: int)
    ensures ParseArgsFixed(argc, flipArg, threadsArg).Go? ==>
      SelectRoutine(ParseArgsFixed(argc, flipArg, threadsArg).letter,
                    ParseArgsFixed(argc, flipArg, threadsArg).threads).Some?
  {
  }

  /** Thread ids `0 .. n-1` in creation order. */
  function Ids(n: nat): (ids: seq<nat>)
    ensures |ids| == n && PthreadFlip.Distinct(ids)
    ensures forall j :: 0 <= j < n ==> ids[j] == j
  {
    seq(n, j requires 0 <= j < n => j)
  }

  lemma IdsLaunchAll(n: nat)
    ensures PthreadFlip.Launched(Ids(n), n) == AllThreads(n)
  {
    forall t: nat
      ensures t in PthreadFlip.Launched(Ids(n), n) <==> t in AllThreads(n)
    {
      if t < n {
        assert Ids(n)[t] == t;
      }
    }
  }

  /** The rows below the `MTFlipH` ranges' limit mirrored, the rest untouched: what the
      threads leave behind. */
  function ThreadedHResult(img: Image, ip: ImgProp, n: nat): (r: Image)
    requires SerialFlip.Fits(img, ip) && n >= 1
  {
    StrideHoldsPixels(ip);
    assert forall k :: 0 <= k < |img| ==> |img[k]| == ip.hbytes;
    PthreadFlip.MirrorRowRange(img, ip.hpixels, 0, MTFlipHChunks(|img|, n).limit)
  }

  /** A call through the function pointer, `REPS == 1` times, the threaded routines
      launching threads `0 .. n-1`. */
  method Dispatch(r: Routine, n: nat, img: Image, ip: ImgProp) returns (out: Image)
    requires SerialFlip.Fits(img, ip) && n >= 1
    ensures r == SerialV ==> out == ReverseRows(img)
    ensures r == SerialH ==> out == MirrorEachRow(img, ip.hpixels)
    ensures r == ThreadedV ==> out == MirrorSpan(img, 0, MTFlipVChunks(|img|, n).limit)
    ensures r == ThreadedV && |img| % (2 * n) == 0 ==> out == ReverseRows(img)
    ensures r == ThreadedH ==> out == ThreadedHResult(img, ip, n)
    ensures r == ThreadedH && |img| % n == 0 ==> out == MirrorEachRow(img, ip.hpixels)
  {
    StrideHoldsPixels(ip);
    match r {
      case SerialV =>
        out := SerialFlip.FlipImageV(img, ip);
      case SerialH =>
        out := SerialFlip.FlipImageH(img, ip);
      case ThreadedV =>
        out := PthreadFlip.RunThreadsV(img, MTFlipVChunks(|img|, n), Ids(n));
        IdsLaunchAll(n);
        PthreadFlip.MTFlipVResult(img, n);
      case ThreadedH =>
        out := PthreadFlip.RunThreadsH(img, ip.hpixels, MTFlipHChunks(|img|, n), Ids(n));
        IdsLaunchAll(n);
        PthreadFlip.MTFlipHResult(img, ip.hpixels, n);
    }
  }

  /** `main` after the image is read: parse, select, run. The serial routines flip the
      whole image; the threaded ones flip only the rows their ranges cover. */
  method Run(argc: int, flipArg: string, threadsArg: int, img: Image, ip: ImgProp) returns (o: Outcome)
    requires SerialFlip.Fits(img, ip)
    ensures !ParseArgs(argc, flipArg, threadsArg).Go? ==>
      o == (if ParseArgs(argc, flipArg, threadsArg) == ShowUsage then Usage else Rejected)
    ensures ParseArgs(argc, flipArg, threadsArg).Go? && ParseArgs(argc, flipArg, threadsArg).letter == 'G'
            ==> o == NoRoutine
    ensures ParseArgs(argc, flipArg, threadsArg) == Go('V', 1) ==> o == Flipped(ReverseRows(img))
    ensures ParseArgs(argc, flipArg, threadsArg) == Go('H', 1) ==> o == Flipped(MirrorEachRow(img, ip.hpixels))
    ensures ParseArgs(argc, flipArg, threadsArg).Go? && ParseArgs(argc, flipArg, threadsArg).letter == 'V'
            && ParseArgs(argc, flipArg, threadsArg).threads > 1 ==>
      o == Flipped(MirrorSpan(img, 0, MTFlipVChunks(|img|, ParseArgs(argc, flipArg, threadsArg).threads).limit))
    ensures ParseArgs(argc, flipArg, threadsArg).Go? && ParseArgs(argc, flipArg, threadsArg).letter == 'H'
            && ParseArgs(argc, flipArg, threadsArg).threads > 1 ==>
      o == Flipped(ThreadedHResult(img, ip, ParseArgs(argc, flipArg, threadsArg).threads))
  {
    var plan := ParseArgs(argc, flipArg, threadsArg);
    if !plan.Go? {
      return if plan == ShowUsage then Usage else Rejected;
    }
    var routine := SelectRoutine(plan.letter, plan.threads);
    if routine.None? {
      return NoRoutine;
    }
    var out := Dispatch(routine.value, plan.threads, img, ip);
    o := Flipped(out);
  }

  /** The corrected program: 'G' rejected and the threads' ranges balanced, so every
      accepted run flips the whole image whatever the thread count. */
  method RunFixed(argc: int, flipArg: string, threadsArg: int, img: Image, ip: ImgProp) returns (o: Outcome)
    requires SerialFlip.Fits(img, ip)
    ensures !ParseArgsFixed(argc, flipArg, threadsArg).Go? ==> o == Usage || o == Rejected
    ensures ParseArgsFixed(argc, flipArg, threadsArg).Go? && ParseArgsFixed(argc, flipArg, threadsArg).letter == 'V'
            ==> o == Flipped(ReverseRows(img))
    ensures ParseArgsFixed(argc, flipArg, threadsArg).Go? && ParseArgsFixed(argc, flipArg, threadsArg).letter == 'H'
            ==> o == Flipped(MirrorEachRow(img, ip.hpixels))
  {
    var plan := ParseArgsFixed(argc, flipArg, threadsArg);
    if !plan.Go? {
      return if plan == ShowUsage then Usage else Rejected;
    }
    var n: nat := plan.threads;
    StrideHoldsPixels(ip);
    if n == 1 {
      if plan.letter == 'V' {
        var out := SerialFlip.FlipImageV(img, ip);
        o := Flipped(out);
      } else {
        var out := SerialFlip.FlipImageH(img, ip);
        o := Flipped(out);
      }
    } else if plan.letter == 'V' {
      var out := PthreadFlip.RunThreadsV(img, Balanced(|img| / 2, n), Ids(n));
      IdsLaunchAll(n);
      PthreadFlip.BalancedVIsFlip(img, n);
      o := Flipped(out);
    } else {
      var out := PthreadFlip.RunThreadsH(img, ip.hpixels, Balanced(|img|, n), Ids(n));
      IdsLaunchAll(n);
      PthreadFlip.BalancedHIsFlip(img, ip.hpixels, n);
      o := Flipped(out);
    }
  }
}
