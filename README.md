# qrdump in Dafny

A model of `qrdump.py`, a small decoder that reads a QR-code symbol and reports
what it can recover without error correction. An image is an N x N grid of cells,
each light (0), dark (1) or unknown (-1). The decoder runs these stages:

1. It checks the image: square, of side 4V + 17 with 2 <= V <= 6, with cells in {-1, 0, 1}.
2. It checks every known cell of the fixed patterns: the three finder corners
   with their separators, the alignment pattern, the timing row and column, and
   the dark module.
3. It reads the two 15-cell copies of the format information and merges them
   cell by cell, where an unknown cell gives way to a known one and two known
   cells that differ are a conflict. It removes the format mask and reads the
   error-correction level and the data-mask id.
4. It walks the data modules in their zig-zag reading order and demasks each one.
   An unknown module stays unknown.
5. It decodes the first segment of the bitstream: a mode indicator, a
   character-count indicator, then fixed-width blocks. Only alphanumeric blocks
   are decoded. A block with an unknown bit becomes '?' characters. There is
   no terminator detection, so blocks are read from the whole remaining
   bitstream and only the declared count limits the message.

The modules follow those stages:

- `Common`: Option and Result, and the one `Error` type that stands for the
  decoder's exceptions.
- `Bits`: cells, `msb_to_int`, `merge`, and `lift` applied to xor.
- `Masks`: `mask`.
- `Layout`: `is_data` and `data_locations`.
- `Patterns`: the templates and the `assertpixel` checks.
- `Format`: the format-information reader.
- `Segment`: `mode_length_len`, `decode` and the block loop.
- `Dump`: `qrdump` as a whole.
- `Symbol`: an encoder that builds a whole symbol (template, both format
  copies, masked data) and the round trip of that symbol through the decoder.
  `qrdump.py` has no encoder. This one exists so that the decoder's stages can
  be stated as round trips.

Where the source runs a `for` or `while` loop, the model is a method with loop
invariants. Each such method is proved equal to a recursive specification
function:

- `MsbToInt` to `BinaryValue`.
- `DataLocations` to `DataPath`.
- The pattern-check loops to `FirstMismatch` over the list of checks.
- `DecodeBlockLoop` to `DecodeBlocks`.
- `DecodeSegment` to `SegmentSpec`.
- `QrDump` to `DumpSpec`.

The list comprehensions in `qrdump` build a list in one expression and have no
loop state. They are sequence comprehensions in the model:

- The two format copies (qrdump.py:185-186): `FormatTopLeft` and `FormatBottomRight`.
- The cell-by-cell merge (qrdump.py:188): `MergeWords`.
- Removing the format mask (qrdump.py:191): `ApplyFormatMask`.
- Reading the bitstream (qrdump.py:203): `Demask`.

The properties of the decoder are then proved about those functions.

## Model

| member | source | states |
|---|---|---|
| Bits.MsbToInt | qrdump.py:37-43 | fails exactly when some element is not 0 or 1; otherwise returns the most-significant-first value of the bits, which is below 2^n for n bits |
| Bits.BinaryValueBound | qrdump.py:37-43 | the value of n bits is below 2^n |
| Bits.ToBitsRoundTrip | qrdump.py:37-43 | reading back the n-bit encoding of any v < 2^n gives v |
| Bits.BinaryValueRoundTrip | qrdump.py:37-43 | a bit list is determined by its value and length: re-encoding the value gives the list back |
| Bits.Merge | qrdump.py:101-108 | the result refines both readings and is the least such value; it fails exactly when no value refines both; merging trits gives a trit |
| Bits.MergeLaws | qrdump.py:101-108 | unknown is absorbed, equal readings pass, two different bits conflict, and merge is symmetric |
| Bits.LiftXor | qrdump.py:45-46 | unknown exactly when an argument is unknown, otherwise the exclusive or of the two bits |
| Bits.LiftXorInvolution | qrdump.py:45-46 | xor-ing twice with the same known bit gives back the cell, unknown included |
| Bits.LiftXorTable | qrdump.py:45-46 | the truth table of the lifted xor on unknown, 0 and 1 |
| Masks.Mask | qrdump.py:48-65 | defined exactly for ids 0 to 7, and then always a bit |
| Masks.MaskIsStandard | qrdump.py:48-65 | each of the eight masks darkens exactly the modules where the ISO/IEC 18004 Table 10 condition holds, including the two ids the decoder writes differently |
| Layout.DataLocations | qrdump.py:123-145 | the loop yields exactly the sequence of the reading-order walk |
| Layout.WalkMembers | qrdump.py:123-145 | from any state of the loop, the locations still to be yielded are exactly the data cells ahead of it: the rest of the current two-column strip in the direction of travel and everything to the left |
| Layout.WalkDistinct | qrdump.py:123-145 | the walk never yields a location twice |
| Layout.DataPathExact | qrdump.py:110-145 | data_locations yields every data cell of the grid, and only data cells; none is in column 6 and none is repeated |
| Layout.DataPathStart | qrdump.py:124-142 | the first location is the bottom-right corner |
| Layout.DataPathLength | qrdump.py:110-145 | the number of yielded locations equals the number of data cells |
| Patterns.TemplateShapes | qrdump.py:82-99 | the finder template is 8 x 8 and the alignment template 5 x 5, both made of bits only |
| Patterns.FirstMismatch | qrdump.py:166-168 | no mismatch exactly when no check is contradicted by a known cell; a reported mismatch is a check of the list that the image contradicts |
| Patterns.FirstMismatchAt | qrdump.py:166-183 | checks run in order: when every check before k passes and check k fails, check k is the one reported |
| Patterns.FirstMismatchAppend | qrdump.py:170-183 | running two lists of checks in turn reports the first list's mismatch if it has one, otherwise the second's |
| Patterns.FinderCheckAt | qrdump.py:170-174 | template cell (y, x) is checked at the top-left, bottom-left and top-right corners, at positions 24y + 3x to 24y + 3x + 2 |
| Patterns.AlignCheckAt | qrdump.py:175-177 | template cell (y, x) of the alignment pattern is checked at (N-y-5, N-x-5) |
| Patterns.TimingCheckAt | qrdump.py:179-181 | for each x in 8..N-9, row 6 and then column 6 are checked against dark at even positions |
| Patterns.ChecksInImage | qrdump.py:170-183 | on a square image of side 17 or more, every checked location lies in the image |
| Patterns.PatternMismatchByGroups | qrdump.py:170-183 | the whole check runs finders, alignment, timing and the dark module in turn and stops at the first failure |
| Patterns.CheckFinders | qrdump.py:170-174 | the first loop nest reports the first mismatch of the finder checks, or none |
| Patterns.CheckAlignment | qrdump.py:175-177 | the second loop nest reports the first mismatch of the alignment checks, or none |
| Patterns.CheckTiming | qrdump.py:179-181 | the timing loop reports the first mismatch of the timing checks, or none |
| Patterns.CheckFixedPatterns | qrdump.py:166-183 | the four stages together report the first mismatch of all checks in source order |
| Patterns.FinderChecksPass | qrdump.py:170-174 | the finder checks pass exactly when no known cell of the three corners contradicts the template |
| Patterns.AlignChecksPass | qrdump.py:175-177 | the alignment checks pass exactly when no known cell contradicts the alignment template |
| Patterns.TimingChecksPass | qrdump.py:179-181 | the timing checks pass exactly when no known cell of row or column 6 breaks the alternation |
| Patterns.MismatchIffInconsistent | qrdump.py:166-183 | the check fails exactly when some known cell contradicts a fixed pattern |
| Patterns.UnknownsNeverMismatch | qrdump.py:166-168 | forgetting cells of an image that passes the checks gives an image that passes them too |
| Format.TopLeftCell | qrdump.py:185 | the top-left copy lies in the 9 x 9 top-left corner, on row 8 or column 8, never on the timing row or column |
| Format.BottomRightCell | qrdump.py:186 | cells 0 to 6 of the split copy run up column 8 from row N-1, cells 7 to 14 along row 8 from column N-8; on a grid of side 17 or more every cell lies in the grid, in the bottom-left or top-right strip, off the timing row and column |
| Format.MergeWords | qrdump.py:187-190 | fails exactly when some position holds two known, different bits; otherwise each cell is the merge of the two readings |
| Format.ApplyFormatMask | qrdump.py:191 | keeps the length, and a cell is unknown afterwards exactly when it was before |
| Format.ReadFormat | qrdump.py:185-198 | level in 0..3 and mask id in 0..7 on success; the only errors are a conflict and unknown level/mask bits; a conflict is reported exactly when the two copies hold different known bits at some position; "level or mask unknown" is reported exactly when there is no conflict and one of the first five positions is unknown in both copies |
| Format.FormatRoundTrip | qrdump.py:185-198 | when both copies show the encoded word or unknown, and the five level and mask cells are known in at least one copy, the reader recovers the encoded level and mask id |
| Format.FormatAllUnknown | qrdump.py:193-196 | with every level and mask cell unknown in both copies, the reader stops with "level or mask unknown" |
| Format.FormatMaskExample | qrdump.py:6 | the worked example of ISO/IEC 18004 Annex C: level M, mask 101 and BCH bits 0011011100 encode to the masked word 100000011001110, which fixes the format mask constant |
| Segment.Lookup | qrdump.py:11-18 | the lookup of a mode in one version band's table of count widths succeeds exactly for modes in the table, with the table's width, and otherwise fails with the missing mode |
| Segment.ModeLengthLen | qrdump.py:11-18 | defined exactly for versions 1 to 40 and the four known modes; an unsupported version is reported before an unknown mode; the width is between 8 and 16 bits |
| Segment.ModeLengthLenMonotone | qrdump.py:11-18 | a larger version never has a narrower count indicator |
| Segment.AlphanumericCountWidth | qrdump.py:12-13 | versions 1 to 9 use a 9-bit alphanumeric count |
| Segment.TableChar | qrdump.py:9 | the k-th table character is a digit, a capital letter or one of the nine symbols, never '?' |
| Segment.TableChars | qrdump.py:9 | the table has 45 characters and its k-th character is TableChar(k) |
| Segment.Decode | qrdump.py:20-34 | on success, exactly as many characters as are asked for (none once the count is used up, else at most two), all from the table or '?'; a non-alphanumeric mode fails exactly when characters are asked for; the only other errors are non-binary bits and an index past the table |
| Segment.DecodePair | qrdump.py:30-31 | the 11-bit block of 45a + b decodes to characters a and b |
| Segment.DecodeSingle | qrdump.py:27-29 | with one character left, the first six bits are its index and the rest of the block, when known, is ignored; an unknown bit anywhere in the block gives '?' instead (Segment.DecodeUnknownBlock) |
| Segment.DecodeUnknownBlock | qrdump.py:25-26 | a block with an unknown bit decodes to as many '?' as characters are asked for |
| Segment.DecodeIndexOverflow | qrdump.py:30-33 | a pair value of 2025 or more aborts the decode with the out-of-range index; no '??' is produced |
| Segment.DecodeSingleIndexOverflow | qrdump.py:27-29 | a final single character whose six-bit value is 45 or more aborts the decode with that index |
| Segment.PairExample | qrdump.py:30-31 | the block of value 45 decodes to "10" |
| Segment.SingleExample | qrdump.py:28-29 | a final six-bit value 35 decodes to "Z" |
| Segment.DecodeBlocks | qrdump.py:222-235 | the block loop fails only with an error of segment decoding |
| Segment.DecodeBlockLoop | qrdump.py:222-235 | the loop over whole blocks, asking each for the characters still outstanding, gives the result of the block decode |
| Segment.DecodeBlocksAlphabet | qrdump.py:222-235 | every decoded character is a table character or '?' |
| Segment.DecodeBlocksBounded | qrdump.py:232 | with a declared count, the loop never produces more characters than declared |
| Segment.AlphanumericBlocksLength | qrdump.py:222-235 | in alphanumeric mode each whole block yields two characters until the declared count is reached, or all of them when the count is unknown |
| Segment.DecodeBlocksExhausted | qrdump.py:21-22 | once the declared count is used up, the rest decodes to nothing, whatever the bits and the mode |
| Segment.OtherModesBlocks | qrdump.py:33-34 | numeric and binary blocks fail at the first whole block asked for characters, and give nothing when there is none |
| Segment.TrailingBitsIgnored | qrdump.py:225-227 | bits after the last whole block do not change the result |
| Segment.SegmentSpec | qrdump.py:205-237 | the segment stage fails only with an error of segment decoding; its two unknown-bit branches are stated by Segment.UnknownModeRejected and Segment.UnknownCountContinues |
| Segment.UnknownModeRejected | qrdump.py:205-208 | an unknown bit in the four mode bits stops the segment stage with "unknown mode" |
| Segment.UnknownCountContinues | qrdump.py:215-237 | an unknown bit in the count is not fatal: the count is reported unknown, every whole block is decoded as if no count were declared, and the message is not cut |
| Segment.DecodeSegment | qrdump.py:205-237 | the sequence of slicing, mode and count reads, block loop and final truncation gives the segment result |
| Segment.SegmentMessage | qrdump.py:232-237 | the message holds only table characters or '?' and never exceeds a known declared count, so the final truncation never cuts |
| Segment.SegmentPrefix | qrdump.py:205-214 | a known mode indicator and a known count split the bitstream into mode, count and payload |
| Segment.AlphanumericSegment | qrdump.py:205-237 | an alphanumeric segment with a known count n gives the block decode of its payload, cut to n characters |
| Segment.AlphanumericBlocksRoundTrip | qrdump.py:222-235 | decoding the encoded pairs and final single character of a text, with its count and any padding of five bits or more, gives the text back |
| Segment.PairBlockStep | qrdump.py:228-235 | a pair block yields its two characters and the loop goes on with two fewer to produce |
| Segment.SingleBlockStep | qrdump.py:228-235 | a lone final character yields one character and nothing after it is decoded |
| Segment.SegmentRoundTrip | qrdump.py:205-237 | decoding the bitstream of an alphanumeric segment (mode 0010, a 9-bit count, the payload, padding) gives back its count and its text |
| Segment.KanjiHasNoBlocks | qrdump.py:222 | a kanji segment passes the mode and count reads and then fails for lack of a block width |
| Segment.UnmappedModeRejected | qrdump.py:209-210 | a mode value other than 1, 2, 4 or 8 stops the decode before the count is read |
| Segment.OtherModesSegment | qrdump.py:205-237 | a numeric or binary segment succeeds with an empty message when it declares zero characters or has no whole block, and fails otherwise |
| Dump.Validate | qrdump.py:155-164 | a validated image is square, of side 4V + 17 with 2 <= V <= 6, and holds trits only |
| Dump.ValidateExactly | qrdump.py:155-164 | exactly the square images of side 25, 29, 33, 37 or 41 holding trits pass |
| Dump.ValidationOrder | qrdump.py:155-164 | squareness is checked before size, size before version, version before contents |
| Dump.DemaskCell | qrdump.py:203 | a demasked module is a trit, and unknown exactly when the cell is |
| Dump.Demask | qrdump.py:203 | one trit per location, unknown exactly where the image cell is unknown |
| Dump.DemaskInvolution | qrdump.py:203 | masking the bitstream again gives back the image cells it was read from |
| Dump.BitstreamCoversData | qrdump.py:201-203 | the bitstream has one bit per data module, unknown exactly where the module is |
| Dump.QrDump | qrdump.py:147-237 | the decoder, with its loops, gives the result of the staged specification |
| Dump.DumpSuccess | qrdump.py:147-237 | a successful decode has a supported version, level and mask id in range agreed by the format copies, fixed patterns with no contradicted known cell, and a message of table characters or '?' within a known count |
| Dump.BlankNeedsFormat | qrdump.py:195-196 | an all-unknown symbol of a supported size passes every check and stops at the unknown level and mask |
| Dump.UnsupportedSizes | qrdump.py:158-162 | side 21 (version 1) and side 45 (version 7) are unsupported versions; side 20 is an invalid size |
| Dump.ForgettingNeverContradicts | qrdump.py:166-190 | forgetting cells of an image that decodes never causes a pixel mismatch or a format conflict |
| Dump.DumpLaterErrors | qrdump.py:185-237 | once the patterns pass, a decode fails with the format reader's own error or, after the format is read, with an error of segment decoding |
| Dump.ForgettingKeepsValid | qrdump.py:155-164 | forgetting cells keeps an image valid, with the same version |
| Dump.FormatRefines | qrdump.py:185-190 | an image that knows less has no format conflict when the better-informed one has none |
| Dump.CopiesRefine | qrdump.py:185-186 | each format cell of an image that knows less is unknown or equal to the better-informed one |
| Symbol.TemplateImage | qrdump.py:155-164 | fixture, not a model of the decoder: the symbol holding only the fixed patterns, everything else unknown, is a square of side 4V + 17 of trits |
| Symbol.TemplateAgreement | qrdump.py:166-183 | any image that shows the fixed patterns on their modules passes every `assertpixel` check, whatever it holds elsewhere |
| Symbol.TemplatePasses | qrdump.py:155-183 | the template symbol of every supported version passes validation with its version and passes the pattern checks |
| Symbol.FormatCellsPlaced | qrdump.py:185-186 | every format cell of both copies lies outside the fixed patterns and is found again at its own position |
| Symbol.DataNotReserved | qrdump.py:110-121 | a data module is neither a fixed-pattern module nor a format cell |
| Symbol.DataExactlyUnreserved | qrdump.py:110-121 | `is_data` inside the grid holds exactly for the modules outside the finder corners, the alignment pattern, the timing row and column, the dark module and both format copies |
| Symbol.EncodeSymbol | qrdump.py:147-164 | fixture, not a model of the decoder: the encoded symbol has side 4V + 17 and holds trits only |
| Symbol.SymbolFormat | qrdump.py:185-198 | the format reader recovers the level and mask id the symbol was built with |
| Symbol.SymbolBitstream | qrdump.py:200-203 | demasking the data modules of the symbol in reading order gives back the bitstream it was built from |
| Symbol.SymbolDump | qrdump.py:147-237 | decoding a built symbol reports its version, level and mask id, and the segment decode of the bitstream it carries |
| Symbol.SymbolRoundTrip | qrdump.py:147-237 | a symbol carrying an alphanumeric segment that fills its data modules decodes to that segment's count and text |

## Left out

- `from_pgm`, `str_to_img`, `main` and the command-line parsing: file and text input. The finder and alignment templates are written out as constants.
- Printing: `qrdump` prints what it finds and returns nothing. The model returns those values (version, level, mask id, declared count and message) as a `Report`.
- Exception messages: each `raise` becomes an `Error` value that keeps the data the message shows (size, version, pixel, mode, index), not the text. The format conflict is the exception: see the next line.
- Format.ReadFormat: `FormatConflict` does not carry the two format copies that the message at qrdump.py:190 prints. The copies are the functions `FormatTopLeft` and `FormatBottomRight` of the image, so a caller can recompute them.
- Error correction: the `if False` branch that would treat blocks as error-correction blocks is dead and is left out. No Reed–Solomon check is done, as in the source.
- Numeric, binary and kanji decoding: the source has none. The model covers how these modes end: `UnsupportedMode` for numeric and binary, `NoBlockWidth` for kanji.
- Bits.LiftXor: `lift` takes any function. It is modelled only at its two uses (qrdump.py:191 and 203), both exclusive or on two cells.
- Segment.Decode: the `except KeyError` handler can never run, because a string index past the table raises IndexError. The model aborts with `AlphanumericIndex` and never produces '??' for an out-of-range index.
- Segment.TableChar: the table string is read through a function that gives its k-th character by position. Segment.TableChars proves the two agree.
- The error-correction level is read and reported but has no other effect, as in the source.
- Only the first segment is decoded, as in the source. Bits after it are read as more blocks of the same mode.

