/** Shared result types of the decoder: an optional value, the error conditions
    the decoder raises, and Python's saturating list slices. */
module Common {

  datatype Option<+T> = None | Some(value: T)

  /** Every way a decode can abort. Each constructor stands for one `raise`
      (or one uncaught lookup failure) of the decoder. */
  datatype Error =
    | NotSquare                        // some row's length differs from the number of rows
    | InvalidSize(size: int)           // N < 17 or N - 17 not a multiple of 4
    | UnsupportedVersion(version: int) // version outside what the decoder (or the count-width table) handles
    | InvalidContents                  // a cell outside {-1, 0, 1}
    | PixelMismatch(row: int, col: int, expected: int) // a fixed-pattern cell contradicts the template
    | FormatConflict                   // the two format-information copies disagree on a known bit
    | FormatUnknown                    // level or mask id still holds an unknown bit
    | ModeUnknown                      // the mode indicator holds an unknown bit
    | NotBinary                        // a value other than 0/1 reached the binary-to-integer conversion
    | UnmappedMode(mode: int)          // mode indicator is not numeric, alphanumeric, binary or kanji
    | NoBlockWidth(mode: int)          // the mode has no block width (kanji)
    | UnsupportedMode(mode: int)       // block decoding is not implemented for this mode
    | AlphanumericIndex(index: int)    // character index past the end of the alphanumeric table

  datatype Result<+T> = Ok(value: T) | Err(error: Error)

  /** `s[:n]` in Python: at most the first n elements. */
  function Take<T>(s: seq<T>, n: nat): (r: seq<T>)
    ensures |r| == if n <= |s| then n else |s|
    ensures r <= s
  {
    if n <= |s| then s[..n] else s
  }

  /** `s[n:]` in Python: what is left after the first n elements. */
  function Drop<T>(s: seq<T>, n: nat): (r: seq<T>)
    ensures |r| == if n <= |s| then |s| - n else 0
    ensures Take(s, n) + r == s
  {
    if n <= |s| then s[n..] else []
  }

  /** Concatenation is associative (stated once, away from any other facts). */
  lemma ConcatAssoc<T>(a: seq<T>, b: seq<T>, c: seq<T>)
    ensures (a + b) + c == a + (b + c)
  {
  }

  /** Slicing a suffix again is slicing the original. */
  lemma SliceOfSuffix<T>(s: seq<T>, i: nat, n: nat)
    requires i + n <= |s|
    ensures s[i..][..n] == s[i..i + n] && s[i..][n..] == s[i + n..]
  {
  }

  /** An element of neither part is not in their concatenation. */
  lemma NotInAppend<T>(x: T, a: seq<T>, b: seq<T>)
    requires x !in a && x !in b
    ensures x !in a + b
  {
  }

  function Min(a: int, b: int): (r: int)
    ensures r <= a && r <= b && (r == a || r == b)
  {
    if a <= b then a else b
  }
}
