/** Whole symbols built from their parts: the function patterns, the two
    format copies and a masked bitstream laid out along the reading order
    (ISO/IEC 18004:2006 sections 6.3, 6.7.3, 6.8 and 6.9). Reading such a
    symbol back with qrdump (qrdump.py:147-237) recovers what was put in. */
module Symbol {
  import opened Common
  import opened Bits
  import opened Masks
  import opened Layout
  import opened Patterns
  import opened Format
  import opened Segment
  import opened Dump

  /** The modules the fixed-pattern check looks at: the three finder corners
      with their separators, the alignment pattern, the timing row and column
      and the dark module. */
  predicate InTemplate(N: int, r: int, c: int)
  {
    || (r < 8 && c < 8) || (r >= N - 8 && c < 8) || (r < 8 && c >= N - 8)
    || (N - 9 <= r <= N - 5 && N - 9 <= c <= N - 5)
    || (r == 6 && 8 <= c < N - 8) || (c == 6 && 8 <= r < N - 8)
    || (r == N - 8 && c == 8)
  }

  /** The bit the fixed patterns put at a module of the template. */
  function TemplateCell(N: int, r: int, c: int): (b: int)
    requires N >= 25 && 0 <= r < N && 0 <= c < N && InTemplate(N, r, c)
    ensures IsBit(b)
  {
    if r < 8 && c < 8 then FinderBit(r, c)
    else if r >= N - 8 && c < 8 then FinderBit(N - 1 - r, c)
    else if r < 8 && c >= N - 8 then FinderBit(r, N - 1 - c)
    else if N - 9 <= r <= N - 5 && N - 9 <= c <= N - 5 then AlignBit(N - 5 - r, N - 5 - c)
    else if r == 6 && 8 <= c < N - 8 then TimingBit(c)
    else if c == 6 && 8 <= r < N - 8 then TimingBit(r)
    else 1
  }

  /** A symbol that shows its fixed patterns and nothing else. */
  function TemplateImage(V: int): (image: Image)
    requires 2 <= V <= 6
    ensures |image| == 4 * V + 17 && IsSquare(image) && ImageTrits(image)
  {
    var N := 4 * V + 17;
    seq(N, r requires 0 <= r < N =>
      seq(N, c requires 0 <= c < N => if InTemplate(N, r, c) then TemplateCell(N, r, c) else UNKNOWN))
  }

  /** The image carries the template bits on every template module. */
  predicate ShowsTemplate(image: Image)
    requires IsSquare(image) && |image| >= 25
  {
    forall r, c :: 0 <= r < |image| && 0 <= c < |image| && InTemplate(|image|, r, c) ==>
      image[r][c] == TemplateCell(|image|, r, c)
  }

  /** An image that shows the template passes the fixed-pattern check,
      whatever it holds elsewhere. */
  lemma TemplateAgreement(image: Image)
    requires IsSquare(image) && |image| >= 25 && ShowsTemplate(image)
    ensures PatternMismatch(image).None?
  {
    TemplateFinders(image);
    TemplateAlignment(image);
    TemplateTiming(image);
    assert InTemplate(|image|, |image| - 8, 8);
    MismatchIffInconsistent(image);
  }

  lemma TemplateFinders(image: Image)
    requires IsSquare(image) && |image| >= 25 && ShowsTemplate(image)
    ensures FindersConsistent(image)
  {
    var N := |image|;
    forall y, x | 0 <= y < 8 && 0 <= x < 8
      ensures && !Contradicts(image, Pixel(y, x, FinderBit(y, x)))
              && !Contradicts(image, Pixel(N - y - 1, x, FinderBit(y, x)))
              && !Contradicts(image, Pixel(y, N - x - 1, FinderBit(y, x)))
    {
      assert InTemplate(N, y, x) && InTemplate(N, N - y - 1, x) && InTemplate(N, y, N - x - 1);
    }
  }

  lemma TemplateAlignment(image: Image)
    requires IsSquare(image) && |image| >= 25 && ShowsTemplate(image)
    ensures AlignmentConsistent(image)
  {
    var N := |image|;
    forall y, x | 0 <= y < 5 && 0 <= x < 5
      ensures !Contradicts(image, Pixel(N - y - 5, N - x - 5, AlignBit(y, x)))
    {
      assert InTemplate(N, N - y - 5, N - x - 5);
    }
  }

  lemma TemplateTiming(image: Image)
    requires IsSquare(image) && |image| >= 25 && ShowsTemplate(image)
    ensures TimingConsistent(image)
  {
    var N := |image|;
    forall x | 8 <= x < N - 8
      ensures && !Contradicts(image, Pixel(6, x, TimingBit(x)))
              && !Contradicts(image, Pixel(x, 6, TimingBit(x)))
    {
      assert InTemplate(N, 6, x) && InTemplate(N, x, 6);
    }
  }

  /** The template alone is a valid symbol of every supported version and
      passes the fixed-pattern check. */
  lemma TemplatePasses(V: int)
    requires 2 <= V <= 6
    ensures Validate(TemplateImage(V)) == Ok(V)
    ensures PatternMismatch(TemplateImage(V)).None?
  {
    TemplateAgreement(TemplateImage(V));
  }

  /** Which cell of the format word a module carries, if any: the inverse of
      TopLeftCell and BottomRightCell. */
  function FormatIndex(N: int, r: int, c: int): (i: Option<nat>)
    ensures i.Some? ==> i.value < 15
  {
    if r == 8 && 0 <= c <= 8 && c != 6 then Some(if c < 6 then c else c - 1)
    else if c == 8 && 0 <= r <= 7 && r != 6 then Some(if r == 7 then 8 else 14 - r)
    else if c == 8 && N - 7 <= r <= N - 1 then Some(N - 1 - r)
    else if r == 8 && N - 8 <= c <= N - 1 then Some(c - N + 15)
    else None
  }

  /** The format cells lie outside the template, and each copy's i-th cell
      carries cell i of the word. */
  lemma FormatCellsPlaced(N: int, i: int)
    requires N >= 25 && 0 <= i < 15
    ensures var t := TopLeftCell(i);
            !InTemplate(N, t.0, t.1) && FormatIndex(N, t.0, t.1) == Some(i)
    ensures var b := BottomRightCell(N, i);
            !InTemplate(N, b.0, b.1) && FormatIndex(N, b.0, b.1) == Some(i)
  {
  }

  /** Data modules are neither template nor format modules. */
  lemma DataNotReserved(N: int, r: int, c: int)
    requires N >= 25 && IsData(N, r, c)
    ensures !InTemplate(N, r, c) && FormatIndex(N, r, c).None?
  {
  }

  /** Inside the grid the data modules are exactly the modules that belong
      neither to a fixed pattern nor to a format copy. */
  lemma DataExactlyUnreserved(N: int, r: int, c: int)
    requires N >= 25 && 0 <= r < N && 0 <= c < N
    ensures IsData(N, r, c) <==> !InTemplate(N, r, c) && FormatIndex(N, r, c).None?
  {
    if IsData(N, r, c) {
      DataNotReserved(N, r, c);
    }
  }

  /** Position of a location in a path, -1 when absent. */
  function IndexOf(path: seq<Coord>, c: Coord): (k: int)
    ensures k == -1 <==> c !in path
    ensures k != -1 ==> 0 <= k < |path| && path[k] == c
  {
    if path == [] then -1
    else if path[0] == c then 0
    else
      var k := IndexOf(path[1..], c);
      if k == -1 then -1 else k + 1
  }

  /** The data bits masked with the given pattern, in reading order. */
  function MaskedStream(maskId: int, path: seq<Coord>, bits: seq<int>): (stream: seq<int>)
    requires 0 <= maskId <= 7 && |bits| == |path| && AllTrits(bits)
    ensures |stream| == |path| && AllTrits(stream)
  {
    seq(|path|, k requires 0 <= k < |path| => LiftXor(bits[k], Mask(maskId, path[k].0, path[k].1).value))
  }

  /** One module of an encoded symbol. */
  function SymbolCell(N: int, word: seq<int>, path: seq<Coord>, stream: seq<int>, r: int, c: int): (b: int)
    requires N >= 25 && 0 <= r < N && 0 <= c < N
    requires |word| == 15 && AllBits(word) && |stream| == |path| && AllTrits(stream)
    ensures IsTrit(b)
  {
    if InTemplate(N, r, c) then TemplateCell(N, r, c)
    else match FormatIndex(N, r, c)
      case Some(i) => word[i]
      case None =>
        var k := IndexOf(path, (r, c));
        if k == -1 then UNKNOWN else stream[k]
  }

  /** The symbol of version V carrying a level, a mask id, ten format
      error-correction bits and a bitstream with one bit per data module:
      the fixed patterns, both format copies, and the bitstream masked and
      laid out along the reading order. Every other module is unknown. */
  function EncodeSymbol(V: int, level: nat, maskId: nat, ecc: seq<int>, bits: seq<int>): (image: Image)
    requires 2 <= V <= 6 && level < 4 && maskId < 8 && |ecc| == 10 && AllBits(ecc)
    requires |bits| == |DataPath(4 * V + 17)| && AllTrits(bits)
    ensures |image| == 4 * V + 17 && IsSquare(image) && ImageTrits(image)
  {
    var N := 4 * V + 17;
    var path := DataPath(N);
    var word := EncodeFormat(level, maskId, ecc);
    var stream := MaskedStream(maskId, path, bits);
    seq(N, r requires 0 <= r < N => seq(N, c requires 0 <= c < N => SymbolCell(N, word, path, stream, r, c)))
  }

  /** Both format copies of an encoded symbol read the encoded word. */
  lemma SymbolFormat(V: int, level: nat, maskId: nat, ecc: seq<int>, bits: seq<int>)
    requires 2 <= V <= 6 && level < 4 && maskId < 8 && |ecc| == 10 && AllBits(ecc)
    requires |bits| == |DataPath(4 * V + 17)| && AllTrits(bits)
    ensures ReadFormat(EncodeSymbol(V, level, maskId, ecc, bits)) == Ok((level, maskId))
  {
    var image := EncodeSymbol(V, level, maskId, ecc, bits);
    var N := 4 * V + 17;
    var word := EncodeFormat(level, maskId, ecc);
    forall i | 0 <= i < 15
      ensures FormatTopLeft(image)[i] == word[i] && FormatBottomRight(image)[i] == word[i]
    {
      FormatCellsPlaced(N, i);
    }
    FormatRoundTrip(image, level, maskId, ecc);
  }

  /** Demasking an encoded symbol along the reading order gives back the
      bitstream it carries. */
  lemma SymbolBitstream(V: int, level: nat, maskId: nat, ecc: seq<int>, bits: seq<int>)
    requires 2 <= V <= 6 && level < 4 && maskId < 8 && |ecc| == 10 && AllBits(ecc)
    requires |bits| == |DataPath(4 * V + 17)| && AllTrits(bits)
    ensures Demask(EncodeSymbol(V, level, maskId, ecc, bits), maskId, DataPathIn(4 * V + 17)) == bits
  {
    var image := EncodeSymbol(V, level, maskId, ecc, bits);
    var N := 4 * V + 17;
    var path := DataPath(N);
    var stream := MaskedStream(maskId, path, bits);
    var demasked := Demask(image, maskId, DataPathIn(N));
    DataPathExact(N);
    forall k | 0 <= k < |path| ensures demasked[k] == bits[k] {
      var c := path[k];
      assert InGrid(N, c) && IsData(N, c.0, c.1);
      DataNotReserved(N, c.0, c.1);
      assert IndexOf(path, c) == k;
      assert image[c.0][c.1] == stream[k];
      LiftXorInvolution(bits[k], Mask(maskId, c.0, c.1).value);
    }
  }

  /** An encoded symbol passes every check before the segment decoder, which
      then sees exactly the carried bitstream. */
  lemma SymbolDump(V: int, level: nat, maskId: nat, ecc: seq<int>, bits: seq<int>)
    requires 2 <= V <= 6 && level < 4 && maskId < 8 && |ecc| == 10 && AllBits(ecc)
    requires |bits| == |DataPath(4 * V + 17)| && AllTrits(bits)
    ensures DumpSpec(EncodeSymbol(V, level, maskId, ecc, bits))
            == match SegmentSpec(bits, V)
               case Err(e) => Err(e)
               case Ok(seg) => Ok(Report(V, level, maskId, seg.length, seg.message))
  {
    var image := EncodeSymbol(V, level, maskId, ecc, bits);
    var N := 4 * V + 17;
    assert Validate(image) == Ok(V);
    assert PatternMismatch(image).None? by {
      TemplateAgreement(image);
    }
    SymbolFormat(V, level, maskId, ecc, bits);
    SymbolBitstream(V, level, maskId, ecc, bits);
  }

  /** The full round trip: a symbol carrying an alphanumeric segment, with
      padding up to the number of data modules, decodes to the version, the
      level, the mask id, the count and the text that were put in. */
  lemma SymbolRoundTrip(V: int, level: nat, maskId: nat, ecc: seq<int>, ks: seq<nat>, pad: seq<int>)
    requires 2 <= V <= 6 && level < 4 && maskId < 8 && |ecc| == 10 && AllBits(ecc)
    requires forall i :: 0 <= i < |ks| ==> ks[i] < 45
    requires |ks| < 512 && AllBits(pad) && |pad| >= 5
    requires |EncodeSegment(ks, pad)| == |DataPath(4 * V + 17)|
    ensures DumpSpec(EncodeSymbol(V, level, maskId, ecc, EncodeSegment(ks, pad)))
            == Ok(Report(V, level, maskId, Some(|ks|), AlphanumericText(ks)))
  {
    var bits := EncodeSegment(ks, pad);
    SymbolDump(V, level, maskId, ecc, bits);
    SegmentRoundTrip(ks, pad, V);
  }
}
