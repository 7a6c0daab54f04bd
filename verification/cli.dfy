/** Command-line pieces shared by the three programs: the flip letter is the upper-cased
    first character of `argv[3]`, and a run ends in one of a few ways. */
module Cli {
  import opened Raster

  /** `toupper` in the C locale. */
  function ToUpper(c: char): (u: char)
    ensures 'a' <= c <= 'z' ==> 'A' <= u <= 'Z' && u as int - 'A' as int == c as int - 'a' as int
    ensures !('a' <= c <= 'z') ==> u == c
  {
    if 'a' <= c <= 'z' then (c as int - 32) as char else c
  }

  /** `argv[3][0]`: the terminating NUL for an empty argument. */
  function FirstChar(s: string): (c: char)
  {
    if |s| == 0 then '\0' else s[0]
  }

  /** The letter `main` acts on: the first character of the argument, upper-cased. */
  function FlipLetter(s: string): (letter: char)
  {
    ToUpper(FirstChar(s))
  }

  /** An argument selects the upper-case letter `u` exactly when it starts with `u` or
      with the matching lower-case letter; an empty argument selects no letter. */
  lemma FlipLetterSelects(s: string, u: char)
    requires 'A' <= u <= 'Z'
    ensures FlipLetter(s) == u <==> |s| > 0 && (s[0] == u || s[0] as int == u as int + 32)
    ensures |s| == 0 ==> !('A' <= FlipLetter(s) <= 'Z')
  {
    if |s| > 0 && 'a' <= s[0] <= 'z' {
      assert FlipLetter(s) as int == s[0] as int - 32;
    }
  }

  /** Present or absent, for the flip routine a function pointer ends up holding. */
  datatype Option<T> = None | Some(value: T)

  /** How a run ends: the usage text, a rejected argument, a call through a flip function
      pointer that was never assigned, or the flipped image written out. */
  datatype Outcome = Usage | Rejected | NoRoutine | Flipped(img: Image)
}
