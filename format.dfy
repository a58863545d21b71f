/** Format-information recovery (qrdump.py:185-198; ISO/IEC 18004:2006
    section 6.9): read the two 15-cell copies, merge them cell by cell, undo
    the fixed format mask and split off the error-correction level (bits 0-1)
    and the data-mask id (bits 2-4), most significant bit first. */
module Format {
  import opened Common
  import opened Bits
  import opened Patterns

  /** The 15-bit constant 101010000010010 XOR-ed onto the format bits. */
  const FORMAT_MASK: seq<int> := [1, 0, 1, 0, 1, 0, 0, 0, 0, 0, 1, 0, 0, 1, 0]

  /** Every cell of the image is a trit. */
  predicate ImageTrits(image: Image)
  {
    forall r, c :: 0 <= r < |image| && 0 <= c < |image[r]| ==> IsTrit(image[r][c])
  }

  /** Where the i-th cell of the copy around the top-left finder lies: row 8
      from column 0 to 8, then column 8 from row 7 up to row 0, skipping the
      timing row and column. */
  function TopLeftCell(i: int): (c: (int, int))
    requires 0 <= i < 15
    ensures 0 <= c.0 <= 8 && 0 <= c.1 <= 8 && c.0 != 6 && c.1 != 6
    ensures c.0 == 8 || c.1 == 8
  {
    if i < 6 then (8, i)
    else if i < 8 then (8, i + 1)
    else if i == 8 then (7, 8)
    else (14 - i, 8)
  }

  /** Where the i-th cell of the split copy lies: column 8 from row N-1 up to
      row N-7, then row 8 from column N-8 to N-1. */
  function BottomRightCell(N: int, i: int): (c: (int, int))
    requires 0 <= i < 15
    ensures i < 7 ==> c == (N - 1 - i, 8)
    ensures i >= 7 ==> c == (8, N - 15 + i)
    ensures N >= 17 ==> 0 <= c.0 < N && 0 <= c.1 < N && c.0 != 6 && c.1 != 6
    ensures N >= 17 ==> (c.1 == 8 && c.0 >= N - 7) || (c.0 == 8 && c.1 >= N - 8)
  {
    if i < 7 then (N - 1 - i, 8) else (8, N - 8 + (i - 7))
  }

  /** The copy around the top-left finder. */
  function FormatTopLeft(image: Image): (r: seq<int>)
    requires IsSquare(image) && |image| >= 9
    ensures |r| == 15
    ensures forall i :: 0 <= i < 15 ==> r[i] == image[TopLeftCell(i).0][TopLeftCell(i).1]
    ensures ImageTrits(image) ==> AllTrits(r)
  {
    seq(15, i requires 0 <= i < 15 => image[TopLeftCell(i).0][TopLeftCell(i).1])
  }

  /** The copy split between the bottom-left and top-right finders. */
  function FormatBottomRight(image: Image): (r: seq<int>)
    requires IsSquare(image) && |image| >= 9
    ensures |r| == 15
    ensures forall i :: 0 <= i < 15 ==> r[i] == image[BottomRightCell(|image|, i).0][BottomRightCell(|image|, i).1]
    ensures ImageTrits(image) ==> AllTrits(r)
  {
    var N := |image|;
    seq(15, i requires 0 <= i < 15 => image[BottomRightCell(N, i).0][BottomRightCell(N, i).1])
  }

  /** Merge two equally long readings cell by cell; one conflicting cell
      makes the whole merge fail. */
  function MergeWords(a: seq<int>, b: seq<int>): (r: Option<seq<int>>)
    requires |a| == |b|
    ensures r.None? <==> exists i :: 0 <= i < |a| && a[i] != UNKNOWN && b[i] != UNKNOWN && a[i] != b[i]
    ensures r.Some? ==> |r.value| == |a| && forall i :: 0 <= i < |a| ==> Merge(a[i], b[i]) == Some(r.value[i])
    ensures r.Some? && AllTrits(a) && AllTrits(b) ==> AllTrits(r.value)
  {
    if exists i :: 0 <= i < |a| && Merge(a[i], b[i]).None? then None
    else Some(seq(|a|, i requires 0 <= i < |a| => Merge(a[i], b[i]).value))
  }

  /** XOR each bit with FORMAT_MASK, unknown staying unknown. */
  function ApplyFormatMask(w: seq<int>): (r: seq<int>)
    requires |w| == 15 && AllTrits(w)
    ensures |r| == 15 && AllTrits(r)
    ensures forall i :: 0 <= i < 15 ==> (r[i] == UNKNOWN <==> w[i] == UNKNOWN)
  {
    seq(15, i requires 0 <= i < 15 => LiftXor(w[i], FORMAT_MASK[i]))
  }

  /** The format-reading part of qrdump: Ok((level, maskid)) or the error. */
  function ReadFormat(image: Image): (r: Result<(int, int)>)
    requires IsSquare(image) && |image| >= 17 && ImageTrits(image)
    ensures r.Ok? ==> 0 <= r.value.0 < 4 && 0 <= r.value.1 < 8
    ensures r.Err? ==> r.error == FormatConflict || r.error == FormatUnknown
    ensures r == Err(FormatConflict) <==>
              exists i :: 0 <= i < 15 && FormatTopLeft(image)[i] != UNKNOWN
                && FormatBottomRight(image)[i] != UNKNOWN && FormatTopLeft(image)[i] != FormatBottomRight(image)[i]
    ensures r == Err(FormatUnknown) <==>
              r != Err(FormatConflict)
              && exists i :: 0 <= i < 5 && FormatTopLeft(image)[i] == UNKNOWN && FormatBottomRight(image)[i] == UNKNOWN
  {
    var tl, br := FormatTopLeft(image), FormatBottomRight(image);
    match MergeWords(tl, br)
    case None => Err(FormatConflict)
    case Some(merged) =>
      var info := ApplyFormatMask(merged);
      var level, maskId := info[0..2], info[2..5];
      assert (UNKNOWN in level || UNKNOWN in maskId) <==> exists i :: 0 <= i < 5 && info[i] == UNKNOWN by {
        UnknownInFields(info);
      }
      if UNKNOWN in level || UNKNOWN in maskId then Err(FormatUnknown)
      else
        BinaryValueBound(level);
        BinaryValueBound(maskId);
        Ok((BinaryValue(level), BinaryValue(maskId)))
  }

  /** An unknown cell lies in the level field or the mask-id field exactly
      when one of the first five cells is unknown. */
  lemma UnknownInFields(info: seq<int>)
    requires |info| == 15
    ensures (UNKNOWN in info[0..2] || UNKNOWN in info[2..5]) <==> exists i :: 0 <= i < 5 && info[i] == UNKNOWN
  {
    if exists i :: 0 <= i < 5 && info[i] == UNKNOWN {
      var i :| 0 <= i < 5 && info[i] == UNKNOWN;
      if i < 2 {
        assert info[0..2][i] == UNKNOWN;
      } else {
        assert info[2..5][i - 2] == UNKNOWN;
      }
    }
  }

  /** The 15 format bits a symbol carries for a level, a mask id and ten
      error-correction bits (the decoder does not check the latter). */
  function EncodeFormat(level: nat, maskId: nat, ecc: seq<int>): (w: seq<int>)
    requires level < 4 && maskId < 8 && |ecc| == 10 && AllBits(ecc)
    ensures |w| == 15 && AllBits(w)
  {
    ApplyFormatMask(ToBits(level, 2) + ToBits(maskId, 3) + ecc)
  }

  /** The worked example of ISO/IEC 18004:2006 Annex C: level M (00),
      mask 101 and BCH bits 0011011100 give the masked word 100000011001110,
      which pins FORMAT_MASK. */
  lemma FormatMaskExample()
    ensures EncodeFormat(0, 5, [0, 0, 1, 1, 0, 1, 1, 1, 0, 0]) == [1, 0, 0, 0, 0, 0, 0, 1, 1, 0, 0, 1, 1, 1, 0]
  {
    assert ToBits(0, 2) == [0, 0];
    assert ToBits(5, 3) == [1, 0, 1];
  }

  /** Redundant copies are reconciled: when each copy shows the encoded word
      or unknown in every cell, and the level and mask-id cells are known in
      at least one copy, the reader recovers the level and the mask id. In
      particular one intact copy suffices. */
  lemma FormatRoundTrip(image: Image, level: nat, maskId: nat, ecc: seq<int>)
    requires IsSquare(image) && |image| >= 17 && ImageTrits(image)
    requires level < 4 && maskId < 8 && |ecc| == 10 && AllBits(ecc)
    requires forall i :: 0 <= i < 15 ==>
               Refines(FormatTopLeft(image)[i], EncodeFormat(level, maskId, ecc)[i])
               && Refines(FormatBottomRight(image)[i], EncodeFormat(level, maskId, ecc)[i])
    requires forall i :: 0 <= i < 5 ==> FormatTopLeft(image)[i] != UNKNOWN || FormatBottomRight(image)[i] != UNKNOWN
    ensures ReadFormat(image) == Ok((level, maskId))
  {
    var tl, br := FormatTopLeft(image), FormatBottomRight(image);
    var data := ToBits(level, 2) + ToBits(maskId, 3) + ecc;
    var w := EncodeFormat(level, maskId, ecc);
    var m := MergeWords(tl, br);
    assert m.Some?;
    var merged := m.value;
    forall i | 0 <= i < 15 ensures IsTrit(merged[i]) && (i < 5 ==> merged[i] == w[i]) {
      assert Merge(tl[i], br[i]) == Some(merged[i]);
    }
    var info := ApplyFormatMask(merged);
    forall i | 0 <= i < 5 ensures info[i] == data[i] {
      LiftXorInvolution(data[i], FORMAT_MASK[i]);
    }
    assert info[0..2] == ToBits(level, 2);
    assert info[2..5] == ToBits(maskId, 3);
    ToBitsRoundTrip(level, 2);
    ToBitsRoundTrip(maskId, 3);
  }

  /** With every level and mask-id cell unknown in both copies, the decode
      cannot proceed. */
  lemma FormatAllUnknown(image: Image)
    requires IsSquare(image) && |image| >= 17 && ImageTrits(image)
    requires forall i :: 0 <= i < 5 ==> FormatTopLeft(image)[i] == UNKNOWN && FormatBottomRight(image)[i] == UNKNOWN
    requires forall i :: 5 <= i < 15 ==>
               Merge(FormatTopLeft(image)[i], FormatBottomRight(image)[i]).Some?
    ensures ReadFormat(image) == Err(FormatUnknown)
  {
    var tl, br := FormatTopLeft(image), FormatBottomRight(image);
    var m := MergeWords(tl, br);
    assert m.Some?;
    assert Merge(tl[0], br[0]) == Some(m.value[0]);
    assert ApplyFormatMask(m.value)[0] == UNKNOWN;
  }
}
