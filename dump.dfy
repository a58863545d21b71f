/** The whole decoder, qrdump(image) (qrdump.py:147-237): validate the image,
    check the fixed patterns, read the format information, demask the data
    modules in reading order and decode the first segment. Only versions 2 to
    6 are accepted and no error correction is performed. */
module Dump {
  import opened Common
  import opened Bits
  import opened Masks
  import opened Layout
  import opened Patterns
  import opened Format
  import opened Segment

  /** The version of an N x N symbol, N = 4V + 17. */
  function Version(N: int): int
  {
    (N - 17) / 4
  }

  /** The input checks, in the order the decoder makes them; Ok(V) when the
      image can be decoded. */
  function Validate(image: Image): (r: Result<int>)
    ensures r.Ok? ==> IsSquare(image) && |image| == 4 * r.value + 17 && 2 <= r.value <= 6 && ImageTrits(image)
  {
    var N := |image|;
    if !IsSquare(image) then Err(NotSquare)
    else if N < 17 || (N - 17) % 4 != 0 then Err(InvalidSize(N))
    else if !(2 <= Version(N) <= 6) then Err(UnsupportedVersion(Version(N)))
    else if !ImageTrits(image) then Err(InvalidContents)
    else Ok(Version(N))
  }

  /** Exactly the square images of side 25, 29, 33, 37 or 41 whose cells are
      all -1, 0 or 1 pass validation. */
  lemma ValidateExactly(image: Image)
    ensures Validate(image).Ok? <==>
              IsSquare(image) && |image| in {25, 29, 33, 37, 41} && ImageTrits(image)
  {
  }

  /** The order of the checks: squareness before size, size before version,
      version before contents. A later check's failure is reported only when
      every earlier check passes. */
  lemma ValidationOrder(image: Image)
    ensures !IsSquare(image) ==> Validate(image) == Err(NotSquare)
    ensures IsSquare(image) && (|image| < 17 || (|image| - 17) % 4 != 0) ==>
              Validate(image) == Err(InvalidSize(|image|))
    ensures IsSquare(image) && |image| >= 17 && (|image| - 17) % 4 == 0 && !(2 <= Version(|image|) <= 6) ==>
              Validate(image) == Err(UnsupportedVersion(Version(|image|)))
    ensures Validate(image) == Err(InvalidContents) <==>
              IsSquare(image) && |image| in {25, 29, 33, 37, 41} && !ImageTrits(image)
  {
  }

  /** One data module after demasking: the cell XOR-ed with the mask bit,
      unknown staying unknown. */
  function DemaskCell(image: Image, maskId: int, c: Coord): (b: int)
    requires IsSquare(image) && ImageTrits(image) && InGrid(|image|, c) && 0 <= maskId <= 7
    ensures IsTrit(b) && (b == UNKNOWN <==> image[c.0][c.1] == UNKNOWN)
  {
    LiftXor(image[c.0][c.1], Mask(maskId, c.0, c.1).value)
  }

  predicate PathInGrid(N: int, path: seq<Coord>)
  {
    forall k :: 0 <= k < |path| ==> InGrid(N, path[k])
  }

  /** The bitstream: every location of the path, demasked. */
  function Demask(image: Image, maskId: int, path: seq<Coord>): (bits: seq<int>)
    requires IsSquare(image) && ImageTrits(image) && PathInGrid(|image|, path) && 0 <= maskId <= 7
    ensures |bits| == |path| && AllTrits(bits)
    ensures forall k :: 0 <= k < |path| ==> (bits[k] == UNKNOWN <==> image[path[k].0][path[k].1] == UNKNOWN)
  {
    seq(|path|, k requires 0 <= k < |path| => DemaskCell(image, maskId, path[k]))
  }

  /** Masking the bitstream again gives back the cells it was read from. */
  lemma DemaskInvolution(image: Image, maskId: int, path: seq<Coord>)
    requires IsSquare(image) && ImageTrits(image) && PathInGrid(|image|, path) && 0 <= maskId <= 7
    ensures var bits := Demask(image, maskId, path);
            forall k :: 0 <= k < |path| ==>
              LiftXor(bits[k], Mask(maskId, path[k].0, path[k].1).value) == image[path[k].0][path[k].1]
  {
    var bits := Demask(image, maskId, path);
    forall k | 0 <= k < |path|
      ensures LiftXor(bits[k], Mask(maskId, path[k].0, path[k].1).value) == image[path[k].0][path[k].1]
    {
      var c := path[k];
      assert bits[k] == DemaskCell(image, maskId, c);
      LiftXorInvolution(image[c.0][c.1], Mask(maskId, c.0, c.1).value);
    }
  }

  /** The data path stays in the grid. */
  function DataPathIn(N: nat): (path: seq<Coord>)
    requires N >= 7
    ensures path == DataPath(N) && PathInGrid(N, path)
  {
    DataPathExact(N);
    DataPath(N)
  }

  /** What qrdump reports: version, level, mask id, the declared count
      (None when a count bit is unknown) and the message. */
  datatype Report = Report(version: int, level: int, maskId: int, length: Option<nat>, message: string)

  /** qrdump(image), stage by stage. */
  function DumpSpec(image: Image): Result<Report>
  {
    match Validate(image)
    case Err(e) => Err(e)
    case Ok(V) =>
      match PatternMismatch(image)
      case Some(p) => Err(PixelMismatch(p.row, p.col, p.expected))
      case None =>
        match ReadFormat(image)
        case Err(e) => Err(e)
        case Ok(format) =>
          var bitstream := Demask(image, format.1, DataPathIn(|image|));
          match SegmentSpec(bitstream, V)
          case Err(e) => Err(e)
          case Ok(seg) => Ok(Report(V, format.0, format.1, seg.length, seg.message))
  }

  /** qrdump as the source runs it: loops over rows and cells for the input
      checks, the nested pattern loops, the format reader, the generator of
      data locations and the block loop. */
  method QrDump(image: Image) returns (r: Result<Report>)
    ensures r == DumpSpec(image)
  {
    var N := |image|;
    var y := 0;
    while y < N
      invariant 0 <= y <= N
      invariant forall row :: 0 <= row < y ==> |image[row]| == N
    {
      if |image[y]| != N {
        return Err(NotSquare);
      }
      y := y + 1;
    }
    if N < 17 || (N - 17) % 4 != 0 {
      return Err(InvalidSize(N));
    }
    var V := (N - 17) / 4;
    if !(2 <= V <= 6) {
      return Err(UnsupportedVersion(V));
    }
    y := 0;
    while y < N
      invariant 0 <= y <= N
      invariant forall row, col :: 0 <= row < y && 0 <= col < N ==> IsTrit(image[row][col])
    {
      var x := 0;
      while x < N
        invariant 0 <= x <= N
        invariant forall col :: 0 <= col < x ==> IsTrit(image[y][col])
      {
        if !IsTrit(image[y][x]) {
          return Err(InvalidContents);
        }
        x := x + 1;
      }
      y := y + 1;
    }
    assert Validate(image) == Ok(V);
    var mismatch := CheckFixedPatterns(image);
    if mismatch.Some? {
      return Err(PixelMismatch(mismatch.value.row, mismatch.value.col, mismatch.value.expected));
    }
    var format := ReadFormat(image);
    if format.Err? {
      return Err(format.error);
    }
    var level, maskId := format.value.0, format.value.1;
    var locations := DataLocations(N);
    assert locations == DataPathIn(N);
    var bitstream := Demask(image, maskId, locations);
    var segment := DecodeSegment(bitstream, V);
    if segment.Err? {
      return Err(segment.error);
    }
    return Ok(Report(V, level, maskId, segment.value.length, segment.value.message));
  }

  /** What a successful decode guarantees: a supported version, a level and a
      mask id in range that the format copies agree on, fixed patterns with
      no contradicted known cell, and a message of table characters or '?'
      that never exceeds a known declared count. */
  lemma DumpSuccess(image: Image)
    requires DumpSpec(image).Ok?
    ensures var rep := DumpSpec(image).value;
            && IsSquare(image) && |image| == 4 * rep.version + 17 && 2 <= rep.version <= 6
            && PatternsConsistent(image)
            && ReadFormat(image) == Ok((rep.level, rep.maskId))
            && 0 <= rep.level < 4 && 0 <= rep.maskId < 8
            && InAlphabet(rep.message)
            && (rep.length.Some? ==> |rep.message| <= rep.length.value)
  {
    var V := Validate(image).value;
    MismatchIffInconsistent(image);
    var format := ReadFormat(image).value;
    var bitstream := Demask(image, format.1, DataPathIn(|image|));
    SegmentMessage(bitstream, V);
  }

  /** The decoded bitstream has one bit per data module, and a bit is unknown
      exactly when its module is. */
  lemma BitstreamCoversData(image: Image, maskId: int)
    requires Validate(image).Ok? && 0 <= maskId <= 7
    ensures var N := |image|;
            var bits := Demask(image, maskId, DataPathIn(N));
            && |bits| == |DataCells(N)|
            && forall k :: 0 <= k < |bits| ==>
                 (bits[k] == UNKNOWN <==> image[DataPath(N)[k].0][DataPath(N)[k].1] == UNKNOWN)
  {
    DataPathLength(|image|);
  }

  /** An image of unknown cells only. */
  function Blank(N: nat): (image: Image)
    ensures |image| == N && IsSquare(image) && ImageTrits(image)
    ensures forall r, c :: 0 <= r < N && 0 <= c < N ==> image[r][c] == UNKNOWN
  {
    seq(N, _ => seq(N, _ => UNKNOWN))
  }

  /** A blank symbol of a supported size passes every check up to the format
      information and then stops: nothing is known about level and mask. */
  lemma BlankNeedsFormat(V: int)
    requires 2 <= V <= 6
    ensures DumpSpec(Blank(4 * V + 17)) == Err(FormatUnknown)
  {
    var image := Blank(4 * V + 17);
    assert Validate(image) == Ok(V);
    ChecksInImage(image);
    assert PatternMismatch(image).None?;
    FormatAllUnknown(image);
  }

  /** Sizes outside the supported range: side 21 is version 1, which the
      decoder rejects, and side 20 is no symbol size at all. */
  lemma UnsupportedSizes()
    ensures DumpSpec(Blank(21)) == Err(UnsupportedVersion(1))
    ensures DumpSpec(Blank(20)) == Err(InvalidSize(20))
    ensures DumpSpec(Blank(45)) == Err(UnsupportedVersion(7))
  {
  }

  /** Unknown cells never cause a contradiction: forgetting cells of an image
      that decodes never makes the pattern check or the format merge fail. */
  lemma ForgettingNeverContradicts(image: Image, known: Image)
    requires LessInformed(image, known) && DumpSpec(known).Ok?
    ensures DumpSpec(image).Err? ==> !DumpSpec(image).error.PixelMismatch? && DumpSpec(image).error != FormatConflict
  {
    DumpStages(known);
    ForgettingKeepsValid(image, known);
    assert PatternMismatch(image).None? by {
      ChecksInImage(image);
      UnknownsNeverMismatch(image, known, FixedPatternChecks(|image|));
    }
    FormatRefines(image, known);
    DumpLaterErrors(image);
  }

  /** The stages a successful decode passed. */
  lemma DumpStages(image: Image)
    requires DumpSpec(image).Ok?
    ensures Validate(image).Ok? && PatternMismatch(image).None? && ReadFormat(image).Ok?
  {
  }

  /** Past the pattern check, a decode fails only in the format reader or in
      the segment decoder. */
  lemma DumpLaterErrors(image: Image)
    requires Validate(image).Ok?
    requires PatternMismatch(image).None?
    ensures DumpSpec(image).Err? ==>
              (ReadFormat(image).Err? && DumpSpec(image).error == ReadFormat(image).error)
              || (ReadFormat(image).Ok? && SegmentError(DumpSpec(image).error))
  {
  }

  /** Forgetting cells keeps an image valid. */
  lemma ForgettingKeepsValid(image: Image, known: Image)
    requires LessInformed(image, known) && Validate(known).Ok?
    ensures Validate(image) == Validate(known)
  {
    assert ImageTrits(image) by {
      forall r, c | 0 <= r < |image| && 0 <= c < |image[r]| ensures IsTrit(image[r][c]) {
        assert Refines(image[r][c], known[r][c]);
      }
    }
  }

  /** A format copy of an image that knows less conflicts no more. */
  lemma FormatRefines(image: Image, known: Image)
    requires LessInformed(image, known) && IsSquare(image) && |image| >= 17
    requires ImageTrits(image) && ImageTrits(known)
    requires ReadFormat(known) != Err(FormatConflict)
    ensures ReadFormat(image) != Err(FormatConflict)
  {
    var tl, tk := FormatTopLeft(image), FormatTopLeft(known);
    var bl, bk := FormatBottomRight(image), FormatBottomRight(known);
    CopiesRefine(image, known);
    forall i | 0 <= i < 15 ensures !(tl[i] != UNKNOWN && bl[i] != UNKNOWN && tl[i] != bl[i]) {
      assert !(tk[i] != UNKNOWN && bk[i] != UNKNOWN && tk[i] != bk[i]);
    }
  }

  /** Each format cell read from an image that knows less is unknown or the
      same as in the better-informed image. */
  lemma CopiesRefine(image: Image, known: Image)
    requires LessInformed(image, known) && IsSquare(image) && |image| >= 17
    ensures IsSquare(known) && |known| >= 17
    ensures forall i :: 0 <= i < 15 ==> Refines(FormatTopLeft(image)[i], FormatTopLeft(known)[i])
    ensures forall i :: 0 <= i < 15 ==> Refines(FormatBottomRight(image)[i], FormatBottomRight(known)[i])
  {
    var N := |image|;
    forall i | 0 <= i < 15
      ensures Refines(FormatTopLeft(image)[i], FormatTopLeft(known)[i])
      ensures Refines(FormatBottomRight(image)[i], FormatBottomRight(known)[i])
    {
      var t, b := TopLeftCell(i), BottomRightCell(N, i);
      assert Refines(image[t.0][t.1], known[t.0][t.1]);
      assert Refines(image[b.0][b.1], known[b.0][b.1]);
    }
  }
}
