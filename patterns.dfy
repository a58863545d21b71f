/** The fixed-pattern consistency check (qrdump.py:82-99 and qrdump.py:166-183;
    ISO/IEC 18004:2006 sections 6.3.3-6.3.6): finder patterns with their
    separators at the three corners, the one alignment pattern of versions 2-6,
    the two timing lines and the dark module. Unknown cells agree with anything. */
module Patterns {
  import opened Common
  import opened Bits

  /** A symbol: rows of cells, each -1 (unknown), 0 (light) or 1 (dark). */
  type Image = seq<seq<int>>

  predicate IsSquare(image: Image)
  {
    forall r :: 0 <= r < |image| ==> |image[r]| == |image|
  }

  /** The `finder` template: a 7x7 finder pattern with its one-module light
      separator, as seen from the top-left corner. */
  const FINDER: seq<seq<int>> := [
    [1, 1, 1, 1, 1, 1, 1, 0],
    [1, 0, 0, 0, 0, 0, 1, 0],
    [1, 0, 1, 1, 1, 0, 1, 0],
    [1, 0, 1, 1, 1, 0, 1, 0],
    [1, 0, 1, 1, 1, 0, 1, 0],
    [1, 0, 0, 0, 0, 0, 1, 0],
    [1, 1, 1, 1, 1, 1, 1, 0],
    [0, 0, 0, 0, 0, 0, 0, 0]
  ]

  /** The `align` template: the 5x5 alignment pattern. */
  const ALIGN: seq<seq<int>> := [
    [1, 1, 1, 1, 1],
    [1, 0, 0, 0, 1],
    [1, 0, 1, 0, 1],
    [1, 0, 0, 0, 1],
    [1, 1, 1, 1, 1]
  ]

  lemma TemplateShapes()
    ensures |FINDER| == 8 && forall y :: 0 <= y < 8 ==> |FINDER[y]| == 8
    ensures forall y, x :: 0 <= y < 8 && 0 <= x < 8 ==> IsBit(FINDER[y][x])
    ensures |ALIGN| == 5 && forall y :: 0 <= y < 5 ==> |ALIGN[y]| == 5
    ensures forall y, x :: 0 <= y < 5 && 0 <= x < 5 ==> IsBit(ALIGN[y][x])
  {
  }

  /** Template cell (y, x) of the finder and of the alignment pattern. */
  function FinderBit(y: int, x: int): (b: int)
    requires 0 <= y < 8 && 0 <= x < 8
    ensures IsBit(b)
  {
    TemplateShapes();
    FINDER[y][x]
  }

  function AlignBit(y: int, x: int): (b: int)
    requires 0 <= y < 5 && 0 <= x < 5
    ensures IsBit(b)
  {
    TemplateShapes();
    ALIGN[y][x]
  }

  /** One call of assertpixel: the cell at (row, col) should be `expected`
      (-1 would mean "anything"). */
  datatype Pixel = Pixel(row: int, col: int, expected: int)

  predicate InImage(image: Image, p: Pixel)
  {
    0 <= p.row < |image| && 0 <= p.col < |image[p.row]|
  }

  /** The cell is known, the template bit is known, and they differ. */
  predicate Contradicts(image: Image, p: Pixel)
    requires InImage(image, p)
  {
    p.expected != UNKNOWN && image[p.row][p.col] != UNKNOWN && image[p.row][p.col] != p.expected
  }

  /** The first check, in order, that the image contradicts. */
  function FirstMismatch(image: Image, checks: seq<Pixel>): (r: Option<Pixel>)
    requires forall i :: 0 <= i < |checks| ==> InImage(image, checks[i])
    ensures r.None? <==> forall i :: 0 <= i < |checks| ==> !Contradicts(image, checks[i])
    ensures r.Some? ==> r.value in checks && Contradicts(image, r.value)
  {
    if checks == [] then None
    else if Contradicts(image, checks[0]) then Some(checks[0])
    else FirstMismatch(image, checks[1..])
  }

  /** The finder checks in the order of the nested loops: for each (y, x) of
      the template, the top-left, bottom-left and top-right copies. */
  function FinderChecks(N: int): (r: seq<Pixel>)
    ensures |r| == 192
  {
    seq(192, i requires 0 <= i < 192 => FinderCheck(N, i))
  }

  function FinderCheck(N: int, i: int): Pixel
    requires 0 <= i < 192
  {
    var y, x := i / 24, (i / 3) % 8;
    var b := FinderBit(y, x);
    if i % 3 == 0 then Pixel(y, x, b)
    else if i % 3 == 1 then Pixel(N - y - 1, x, b)
    else Pixel(y, N - x - 1, b)
  }

  /** The alignment checks: template cell (y, x) lands on (N-y-5, N-x-5). */
  function AlignChecks(N: int): (r: seq<Pixel>)
    ensures |r| == 25
  {
    seq(25, i requires 0 <= i < 25 => AlignCheck(N, i))
  }

  function AlignCheck(N: int, i: int): Pixel
    requires 0 <= i < 25
  {
    Pixel(N - i / 5 - 5, N - i % 5 - 5, AlignBit(i / 5, i % 5))
  }

  /** The timing checks: for x in 8..N-9, row 6 and then column 6, expecting
      dark at even positions. */
  function TimingChecks(N: int): (r: seq<Pixel>)
    ensures |r| == if N >= 16 then 2 * (N - 16) else 0
  {
    seq(if N >= 16 then 2 * (N - 16) else 0, i => TimingCheck(i))
  }

  function TimingCheck(i: int): Pixel
  {
    var x := 8 + i / 2;
    if i % 2 == 0 then Pixel(6, x, TimingBit(x)) else Pixel(x, 6, TimingBit(x))
  }

  /** Timing modules are dark at even positions. */
  function TimingBit(x: int): (b: int)
    ensures IsBit(b)
  {
    (x + 1) % 2
  }

  function DarkModule(N: int): Pixel
  {
    Pixel(N - 8, 8, 1)
  }

  /** Every assertpixel call of the check, in the order the source makes them. */
  function FixedPatternChecks(N: int): seq<Pixel>
  {
    FinderChecks(N) + AlignChecks(N) + TimingChecks(N) + [DarkModule(N)]
  }

  lemma FinderCheckAt(N: int, y: int, x: int)
    requires 0 <= y < 8 && 0 <= x < 8
    ensures FinderChecks(N)[24 * y + 3 * x] == Pixel(y, x, FinderBit(y, x))
    ensures FinderChecks(N)[24 * y + 3 * x + 1] == Pixel(N - y - 1, x, FinderBit(y, x))
    ensures FinderChecks(N)[24 * y + 3 * x + 2] == Pixel(y, N - x - 1, FinderBit(y, x))
  {
    FinderIndex(y, x, 0);
    FinderIndex(y, x, 1);
    FinderIndex(y, x, 2);
  }

  /** Check 24y + 3x + j of the finder loop nest belongs to template cell
      (y, x) and corner j. */
  lemma FinderIndex(y: int, x: int, j: int)
    requires 0 <= y < 8 && 0 <= x < 8 && 0 <= j < 3
    ensures (24 * y + 3 * x + j) / 24 == y
    ensures ((24 * y + 3 * x + j) / 3) % 8 == x
    ensures (24 * y + 3 * x + j) % 3 == j
  {
  }

  lemma AlignCheckAt(N: int, y: int, x: int)
    requires 0 <= y < 5 && 0 <= x < 5
    ensures AlignChecks(N)[5 * y + x] == Pixel(N - y - 5, N - x - 5, AlignBit(y, x))
  {
    var i := 5 * y + x;
    assert i / 5 == y && i % 5 == x;
  }

  lemma TimingCheckAt(N: int, x: int)
    requires 8 <= x < N - 8
    ensures TimingChecks(N)[2 * (x - 8)] == Pixel(6, x, TimingBit(x))
    ensures TimingChecks(N)[2 * (x - 8) + 1] == Pixel(x, 6, TimingBit(x))
  {
    var i := 2 * (x - 8);
    assert i / 2 == x - 8 && i % 2 == 0;
    assert (i + 1) / 2 == x - 8 && (i + 1) % 2 == 1;
  }

  lemma ChecksInImage(image: Image)
    requires IsSquare(image) && |image| >= 17
    ensures forall i :: 0 <= i < |FinderChecks(|image|)| ==> InImage(image, FinderChecks(|image|)[i])
    ensures forall i :: 0 <= i < |AlignChecks(|image|)| ==> InImage(image, AlignChecks(|image|)[i])
    ensures forall i :: 0 <= i < |TimingChecks(|image|)| ==> InImage(image, TimingChecks(|image|)[i])
    ensures InImage(image, DarkModule(|image|))
    ensures forall i :: 0 <= i < |FixedPatternChecks(|image|)| ==> InImage(image, FixedPatternChecks(|image|)[i])
  {
  }

  /** The checks before index k all pass. */
  predicate CleanUpTo(image: Image, checks: seq<Pixel>, k: int)
    requires forall i :: 0 <= i < |checks| ==> InImage(image, checks[i])
  {
    0 <= k <= |checks| && forall i :: 0 <= i < k ==> !Contradicts(image, checks[i])
  }

  /** Checks are made in order: the first failing one is the one reported. */
  lemma {:induction false} FirstMismatchAt(image: Image, checks: seq<Pixel>, k: int)
    requires forall i :: 0 <= i < |checks| ==> InImage(image, checks[i])
    requires CleanUpTo(image, checks, k) && k < |checks| && Contradicts(image, checks[k])
    ensures FirstMismatch(image, checks) == Some(checks[k])
  {
    if k > 0 {
      assert !Contradicts(image, checks[0]);
      FirstMismatchAt(image, checks[1..], k - 1);
    }
  }

  /** One step of a checking loop: the next check either is the first
      mismatch or extends the clean prefix. */
  lemma CheckStep(image: Image, checks: seq<Pixel>, k: int, p: Pixel)
    requires forall i :: 0 <= i < |checks| ==> InImage(image, checks[i])
    requires CleanUpTo(image, checks, k) && k < |checks| && checks[k] == p
    ensures Contradicts(image, p) ==> FirstMismatch(image, checks) == Some(p)
    ensures !Contradicts(image, p) ==> CleanUpTo(image, checks, k + 1)
  {
    if Contradicts(image, p) {
      FirstMismatchAt(image, checks, k);
    }
  }

  /** Running two lists of checks one after the other. */
  lemma {:induction false} FirstMismatchAppend(image: Image, a: seq<Pixel>, b: seq<Pixel>)
    requires forall i :: 0 <= i < |a| ==> InImage(image, a[i])
    requires forall i :: 0 <= i < |b| ==> InImage(image, b[i])
    ensures forall i :: 0 <= i < |a + b| ==> InImage(image, (a + b)[i])
    ensures FirstMismatch(image, a + b)
         == if FirstMismatch(image, a).Some? then FirstMismatch(image, a) else FirstMismatch(image, b)
  {
    if a == [] {
      assert a + b == b;
    } else {
      assert (a + b)[0] == a[0];
      assert (a + b)[1..] == a[1..] + b;
      FirstMismatchAppend(image, a[1..], b);
    }
  }

  /** The outcome of the whole check on a validated image. */
  function PatternMismatch(image: Image): Option<Pixel>
    requires IsSquare(image) && |image| >= 17
  {
    ChecksInImage(image);
    FirstMismatch(image, FixedPatternChecks(|image|))
  }

  /** The outcome of each group of checks. */
  function FinderMismatch(image: Image): Option<Pixel>
    requires IsSquare(image) && |image| >= 17
  {
    ChecksInImage(image);
    FirstMismatch(image, FinderChecks(|image|))
  }

  function AlignMismatch(image: Image): Option<Pixel>
    requires IsSquare(image) && |image| >= 17
  {
    ChecksInImage(image);
    FirstMismatch(image, AlignChecks(|image|))
  }

  function TimingMismatch(image: Image): Option<Pixel>
    requires IsSquare(image) && |image| >= 17
  {
    ChecksInImage(image);
    FirstMismatch(image, TimingChecks(|image|))
  }

  /** The check runs the four groups in turn and stops at the first failure. */
  lemma PatternMismatchByGroups(image: Image)
    requires IsSquare(image) && |image| >= 17
    ensures PatternMismatch(image)
            == if FinderMismatch(image).Some? then FinderMismatch(image)
               else if AlignMismatch(image).Some? then AlignMismatch(image)
               else if TimingMismatch(image).Some? then TimingMismatch(image)
               else if Contradicts(image, DarkModule(|image|)) then Some(DarkModule(|image|))
               else None
  {
    var N := |image|;
    ChecksInImage(image);
    var finder, align, timing := FinderChecks(N), AlignChecks(N), TimingChecks(N);
    var dark := [DarkModule(N)];
    FirstMismatchAppend(image, finder, align);
    FirstMismatchAppend(image, finder + align, timing);
    FirstMismatchAppend(image, finder + align + timing, dark);
    assert FixedPatternChecks(N) == finder + align + timing + dark;
  }

  /** The first loop nest: the three finder corners. */
  method CheckFinders(image: Image) returns (mismatch: Option<Pixel>)
    requires IsSquare(image) && |image| >= 17
    ensures mismatch == FinderMismatch(image)
  {
    var N := |image|;
    ChecksInImage(image);
    ghost var finder := FinderChecks(N);
    for y := 0 to 8
      invariant CleanUpTo(image, finder, 24 * y)
    {
      for x := 0 to 8
        invariant CleanUpTo(image, finder, 24 * y + 3 * x)
      {
        var b := FinderBit(y, x);
        FinderCheckAt(N, y, x);
        var k := 24 * y + 3 * x;
        CheckStep(image, finder, k, Pixel(y, x, b));
        if Contradicts(image, Pixel(y, x, b)) {
          return Some(Pixel(y, x, b));
        }
        CheckStep(image, finder, k + 1, Pixel(N - y - 1, x, b));
        if Contradicts(image, Pixel(N - y - 1, x, b)) {
          return Some(Pixel(N - y - 1, x, b));
        }
        CheckStep(image, finder, k + 2, Pixel(y, N - x - 1, b));
        if Contradicts(image, Pixel(y, N - x - 1, b)) {
          return Some(Pixel(y, N - x - 1, b));
        }
      }
    }
    return None;
  }

  /** The second loop nest: the alignment pattern. */
  method CheckAlignment(image: Image) returns (mismatch: Option<Pixel>)
    requires IsSquare(image) && |image| >= 17
    ensures mismatch == AlignMismatch(image)
  {
    var N := |image|;
    ChecksInImage(image);
    ghost var align := AlignChecks(N);
    for y := 0 to 5
      invariant CleanUpTo(image, align, 5 * y)
    {
      for x := 0 to 5
        invariant CleanUpTo(image, align, 5 * y + x)
      {
        var b := AlignBit(y, x);
        AlignCheckAt(N, y, x);
        CheckStep(image, align, 5 * y + x, Pixel(N - y - 5, N - x - 5, b));
        if Contradicts(image, Pixel(N - y - 5, N - x - 5, b)) {
          return Some(Pixel(N - y - 5, N - x - 5, b));
        }
      }
    }
    return None;
  }

  /** The third loop: the timing row and column. */
  method CheckTiming(image: Image) returns (mismatch: Option<Pixel>)
    requires IsSquare(image) && |image| >= 17
    ensures mismatch == TimingMismatch(image)
  {
    var N := |image|;
    ChecksInImage(image);
    ghost var timing := TimingChecks(N);
    for x := 8 to N - 8
      invariant CleanUpTo(image, timing, 2 * (x - 8))
    {
      TimingCheckAt(N, x);
      CheckStep(image, timing, 2 * (x - 8), Pixel(6, x, TimingBit(x)));
      if Contradicts(image, Pixel(6, x, TimingBit(x))) {
        return Some(Pixel(6, x, TimingBit(x)));
      }
      CheckStep(image, timing, 2 * (x - 8) + 1, Pixel(x, 6, TimingBit(x)));
      if Contradicts(image, Pixel(x, 6, TimingBit(x))) {
        return Some(Pixel(x, 6, TimingBit(x)));
      }
    }
    return None;
  }

  /** The whole check, in the order of the source: finders, alignment,
      timing, then the dark module. */
  method CheckFixedPatterns(image: Image) returns (mismatch: Option<Pixel>)
    requires IsSquare(image) && |image| >= 17
    ensures mismatch == PatternMismatch(image)
  {
    var N := |image|;
    PatternMismatchByGroups(image);
    mismatch := CheckFinders(image);
    if mismatch.Some? {
      return;
    }
    mismatch := CheckAlignment(image);
    if mismatch.Some? {
      return;
    }
    mismatch := CheckTiming(image);
    if mismatch.Some? {
      return;
    }
    if Contradicts(image, DarkModule(N)) {
      return Some(DarkModule(N));
    }
    return None;
  }

  predicate FindersConsistent(image: Image)
    requires IsSquare(image) && |image| >= 17
  {
    var N := |image|;
    forall y, x :: 0 <= y < 8 && 0 <= x < 8 ==>
      && !Contradicts(image, Pixel(y, x, FinderBit(y, x)))
      && !Contradicts(image, Pixel(N - y - 1, x, FinderBit(y, x)))
      && !Contradicts(image, Pixel(y, N - x - 1, FinderBit(y, x)))
  }

  predicate AlignmentConsistent(image: Image)
    requires IsSquare(image) && |image| >= 17
  {
    var N := |image|;
    forall y, x :: 0 <= y < 5 && 0 <= x < 5 ==>
      !Contradicts(image, Pixel(N - y - 5, N - x - 5, AlignBit(y, x)))
  }

  predicate TimingConsistent(image: Image)
    requires IsSquare(image) && |image| >= 17
  {
    var N := |image|;
    forall x :: 8 <= x < N - 8 ==>
      && !Contradicts(image, Pixel(6, x, TimingBit(x)))
      && !Contradicts(image, Pixel(x, 6, TimingBit(x)))
  }

  /** The fixed patterns, stated over the grid: every known cell of the three
      finder corners, the alignment pattern, the timing lines and the dark
      module agrees with its template bit. */
  predicate PatternsConsistent(image: Image)
    requires IsSquare(image) && |image| >= 17
  {
    && FindersConsistent(image)
    && AlignmentConsistent(image)
    && TimingConsistent(image)
    && !Contradicts(image, DarkModule(|image|))
  }

  lemma FinderChecksPass(image: Image)
    requires IsSquare(image) && |image| >= 17
    ensures FinderMismatch(image).None? <==> FindersConsistent(image)
  {
    var N := |image|;
    ChecksInImage(image);
    var finder := FinderChecks(N);
    if FirstMismatch(image, finder).None? {
      forall y, x | 0 <= y < 8 && 0 <= x < 8
        ensures && !Contradicts(image, Pixel(y, x, FinderBit(y, x)))
                && !Contradicts(image, Pixel(N - y - 1, x, FinderBit(y, x)))
                && !Contradicts(image, Pixel(y, N - x - 1, FinderBit(y, x)))
      {
        FinderCheckAt(N, y, x);
      }
    }
    if FindersConsistent(image) {
      forall i | 0 <= i < 192 ensures !Contradicts(image, finder[i]) {
        FinderCheckAt(N, i / 24, (i / 3) % 8);
      }
    }
  }

  lemma AlignChecksPass(image: Image)
    requires IsSquare(image) && |image| >= 17
    ensures AlignMismatch(image).None? <==> AlignmentConsistent(image)
  {
    var N := |image|;
    ChecksInImage(image);
    var align := AlignChecks(N);
    if FirstMismatch(image, align).None? {
      forall y, x | 0 <= y < 5 && 0 <= x < 5
        ensures !Contradicts(image, Pixel(N - y - 5, N - x - 5, AlignBit(y, x)))
      {
        AlignCheckAt(N, y, x);
      }
    }
    if AlignmentConsistent(image) {
      forall i | 0 <= i < 25 ensures !Contradicts(image, align[i]) {
        AlignCheckAt(N, i / 5, i % 5);
      }
    }
  }

  lemma TimingChecksPass(image: Image)
    requires IsSquare(image) && |image| >= 17
    ensures TimingMismatch(image).None? <==> TimingConsistent(image)
  {
    var N := |image|;
    ChecksInImage(image);
    var timing := TimingChecks(N);
    if FirstMismatch(image, timing).None? {
      forall x | 8 <= x < N - 8
        ensures && !Contradicts(image, Pixel(6, x, TimingBit(x)))
                && !Contradicts(image, Pixel(x, 6, TimingBit(x)))
      {
        TimingCheckAt(N, x);
      }
    }
    if TimingConsistent(image) {
      forall i | 0 <= i < |timing| ensures !Contradicts(image, timing[i]) {
        TimingCheckAt(N, 8 + i / 2);
      }
    }
  }

  /** The check fails exactly when some known cell contradicts the fixed
      patterns. */
  lemma MismatchIffInconsistent(image: Image)
    requires IsSquare(image) && |image| >= 17
    ensures PatternMismatch(image).None? <==> PatternsConsistent(image)
  {
    PatternMismatchByGroups(image);
    FinderChecksPass(image);
    AlignChecksPass(image);
    TimingChecksPass(image);
  }

  /** `image` knows no more than `known`: each of its cells is unknown or the
      same as in `known`. */
  predicate LessInformed(image: Image, known: Image)
  {
    && |image| == |known|
    && (forall r :: 0 <= r < |image| ==> |image[r]| == |known[r]|)
    && (forall r, c :: 0 <= r < |image| && 0 <= c < |image[r]| ==> Refines(image[r][c], known[r][c]))
  }

  /** Unknown cells never make the check fail: forgetting cells of an image
      that passes the check gives an image that passes it too. */
  lemma {:induction false} UnknownsNeverMismatch(image: Image, known: Image, checks: seq<Pixel>)
    requires LessInformed(image, known)
    requires forall i :: 0 <= i < |checks| ==> InImage(image, checks[i])
    ensures forall i :: 0 <= i < |checks| ==> InImage(known, checks[i])
    ensures FirstMismatch(known, checks).None? ==> FirstMismatch(image, checks).None?
  {
    if checks != [] {
      UnknownsNeverMismatch(image, known, checks[1..]);
    }
  }
}
