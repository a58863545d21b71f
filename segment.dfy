/** Segment decoding of the demasked bitstream (qrdump.py:7-43 and
    qrdump.py:205-237; ISO/IEC 18004:2006 sections 6.4.1, 6.4.3 and 6.4.4):
    a 4-bit mode indicator, a character-count indicator whose width depends on
    version and mode, then fixed-width blocks. Only alphanumeric blocks are
    decoded; there is no terminator detection, so blocks are taken from the
    whole remaining bitstream and only the declared count stops the output. */
module Segment {
  import opened Common
  import opened Bits

  const MODENAMES: map<int, string> :=
    map[1 := "numeric", 2 := "alphanumeric", 4 := "binary", 8 := "kanji"]

  /** Block width in bits per mode; kanji has none. */
  const MODEBLOCK: map<int, nat> := map[1 := 10, 2 := 11, 4 := 8]

  /** The 45-character alphanumeric table: index k stands for its k-th
      character. */
  const ALPHANUMERIC: string := DIGITS + LETTERS + SYMBOLS

  const DIGITS: string := "0123456789"
  const LETTERS: string := "ABCDEFGHIJKLMNOPQRSTUVWXYZ"
  const SYMBOLS: string := " $%*+-./:"

  const ALPHANUMERIC_MODE: int := 2

  /** Bits of a full alphanumeric block, and of a lone final character. */
  const PAIR_WIDTH: nat := 11
  const SINGLE_WIDTH: nat := 6

  function Lookup(table: map<int, nat>, mode: int): (r: Result<nat>)
    ensures r.Ok? <==> mode in table
    ensures r.Ok? ==> r.value == table[mode]
    ensures r.Err? ==> r.error == UnmappedMode(mode)
  {
    if mode in table then Ok(table[mode]) else Err(UnmappedMode(mode))
  }

  /** mode_length_len: bits of the character-count indicator, by version
      band (1-9, 10-26, 27-40) and mode. */
  function ModeLengthLen(V: int, mode: int): (r: Result<nat>)
    ensures r.Ok? <==> 1 <= V <= 40 && mode in MODENAMES
    ensures r.Err? ==> r.error == if 1 <= V <= 40 then UnmappedMode(mode) else UnsupportedVersion(V)
    ensures r.Ok? ==> 8 <= r.value <= 16
  {
    if 1 <= V <= 9 then Lookup(map[1 := 10, 2 := 9, 4 := 8, 8 := 8], mode)
    else if 10 <= V <= 26 then Lookup(map[1 := 12, 2 := 11, 4 := 16, 8 := 10], mode)
    else if 27 <= V <= 40 then Lookup(map[1 := 14, 2 := 13, 4 := 16, 8 := 12], mode)
    else Err(UnsupportedVersion(V))
  }

  /** A larger version never has a narrower count indicator. */
  lemma ModeLengthLenMonotone(V1: int, V2: int, mode: int)
    requires 1 <= V1 <= V2 <= 40 && mode in MODENAMES
    ensures ModeLengthLen(V1, mode).value <= ModeLengthLen(V2, mode).value
  {
  }

  /** How many characters decode is asked for: none when the declared count
      is used up, otherwise at most two (two when the count is unknown). */
  function Wanted(chars: Option<int>): (n: nat)
    ensures n <= 2
  {
    match chars
    case None => 2
    case Some(c) => if c <= 0 then 0 else Min(c, 2)
  }

  /** A character of the table, described by its classes: digits, capital
      letters and nine symbols. */
  predicate IsTableChar(c: char)
  {
    || ('0' <= c <= '9') || ('A' <= c <= 'Z')
    || c == ' ' || c == '$' || c == '%' || c == '*' || c == '+' || c == '-' || c == '.' || c == '/' || c == ':'
  }

  /** Every character is from the table or is the placeholder '?'. */
  predicate InAlphabet(s: string)
  {
    forall i :: 0 <= i < |s| ==> IsTableChar(s[i]) || s[i] == '?'
  }

  /** The k-th character of the table, by its position: ten digits, then
      the 26 capital letters, then the nine symbols. */
  function TableChar(k: nat): (c: char)
    requires k < 45
    ensures IsTableChar(c) && c != '?'
  {
    if k < 10 then ('0' as int + k) as char
    else if k < 36 then ('A' as int + (k - 10)) as char
    else SYMBOLS[k - 36]
  }

  /** The table is exactly 45 characters, and TableChar reads it. */
  lemma TableChars()
    ensures |ALPHANUMERIC| == 45
    ensures forall k :: 0 <= k < 45 ==> ALPHANUMERIC[k] == TableChar(k)
  {
    forall k | 0 <= k < 45 ensures ALPHANUMERIC[k] == TableChar(k) {
      if k < 10 {
        assert ALPHANUMERIC[k] == DIGITS[k];
      } else if k < 36 {
        assert ALPHANUMERIC[k] == LETTERS[k - 10];
      } else {
        assert ALPHANUMERIC[k] == SYMBOLS[k - 36];
      }
    }
  }

  /** decode(block, mode, chars). */
  function Decode(block: seq<int>, mode: int, chars: Option<int>): (r: Result<string>)
    ensures r.Ok? ==> |r.value| == Wanted(chars) && InAlphabet(r.value)
    ensures r == Err(UnsupportedMode(mode)) <==> mode != ALPHANUMERIC_MODE && Wanted(chars) > 0
    ensures r.Err? ==> r.error == UnsupportedMode(mode) || r.error == NotBinary || r.error.AlphanumericIndex?
  {
    if chars.Some? && chars.value <= 0 then Ok("")
    else if mode == ALPHANUMERIC_MODE then
      var n := Wanted(chars);
      if UNKNOWN in block then Ok(if n == 1 then "?" else "??")
      else if n == 1 then
        var head := Take(block, 6);
        if !AllBits(head) then Err(NotBinary)
        else
          var v := BinaryValue(head);
          if v < 45 then Ok([TableChar(v)]) else Err(AlphanumericIndex(v))
      else
        if !AllBits(block) then Err(NotBinary)
        else
          var v := BinaryValue(block);
          if v / 45 < 45 then Ok([TableChar(v / 45), TableChar(v % 45)])
          else Err(AlphanumericIndex(v / 45))
    else Err(UnsupportedMode(mode))
  }

  lemma Pow2Widths()
    ensures Pow2(6) == 64 && Pow2(9) == 512 && Pow2(11) == 2048
  {
  }

  /** A known block asked for two characters holds their indices as one
      value 45 * a + b. */
  lemma DecodeKnownPair(block: seq<int>, chars: Option<int>)
    requires AllBits(block) && Wanted(chars) == 2
    ensures var v := BinaryValue(block);
            Decode(block, ALPHANUMERIC_MODE, chars)
            == if v / 45 < 45 then Ok([TableChar(v / 45), TableChar(v % 45)])
               else Err(AlphanumericIndex(v / 45))
  {
    BitsAreKnown(block);
  }

  /** The pair block of indices a and b, value 45 * a + b, decodes to those
      two characters. */
  lemma DecodePair(a: nat, b: nat, chars: Option<int>)
    requires a < 45 && b < 45
    requires chars.None? || chars.value >= 2
    ensures Decode(PairBits(a, b), ALPHANUMERIC_MODE, chars) == Ok([TableChar(a), TableChar(b)])
  {
    Pow2Widths();
    ToBitsRoundTrip(45 * a + b, PAIR_WIDTH);
    DecodeKnownPair(PairBits(a, b), chars);
    PairIndices(a, b);
  }

  /** When one character remains, the first six bits of the block are its
      index; the known bits after them do not matter (an unknown bit anywhere
      in the block gives '?', see DecodeUnknownBlock). */
  lemma DecodeSingle(a: nat, rest: seq<int>)
    requires a < 45 && AllBits(rest)
    ensures Decode(SingleBits(a) + rest, ALPHANUMERIC_MODE, Some(1)) == Ok([TableChar(a)])
  {
    Pow2Widths();
    ToBitsRoundTrip(a, SINGLE_WIDTH);
    var block := SingleBits(a) + rest;
    BitsAreKnown(block);
    assert Take(block, 6) == SingleBits(a);
    assert AllBits(block) by {
      forall i | 0 <= i < |block| ensures IsBit(block[i]) {
        if i >= 6 {
          assert block[i] == rest[i - 6];
        }
      }
    }
  }

  /** A block with an unknown bit decodes to placeholders, as many as the
      characters it stands for, without aborting. */
  lemma DecodeUnknownBlock(block: seq<int>, chars: Option<int>)
    requires UNKNOWN in block && Wanted(chars) > 0
    ensures var r := Decode(block, ALPHANUMERIC_MODE, chars);
            r.Ok? && |r.value| == Wanted(chars) && forall i :: 0 <= i < |r.value| ==> r.value[i] == '?'
  {
  }

  /** An index past the table aborts the decode: the handler for a failed
      lookup never runs, so no '??' is produced. */
  lemma DecodeIndexOverflow(block: seq<int>, chars: Option<int>)
    requires AllBits(block) && |block| == 11 && BinaryValue(block) >= 2025
    requires chars.None? || chars.value >= 2
    ensures Decode(block, ALPHANUMERIC_MODE, chars) == Err(AlphanumericIndex(BinaryValue(block) / 45))
  {
    BitsAreKnown(block);
  }

  /** The same holds for a lone final character: a six-bit index of 45 or
      more aborts the decode. */
  lemma DecodeSingleIndexOverflow(block: seq<int>)
    requires AllBits(block) && |block| >= 6 && BinaryValue(block[..6]) >= 45
    ensures Decode(block, ALPHANUMERIC_MODE, Some(1)) == Err(AlphanumericIndex(BinaryValue(block[..6])))
  {
    BitsAreKnown(block);
  }

  /** Worked example of a pair block: value 45 is "10". */
  lemma PairExample()
    ensures Decode(PairBits(1, 0), ALPHANUMERIC_MODE, None) == Ok("10")
  {
    DecodePair(1, 0, None);
  }

  /** Worked example of a final single character: six bits of value 35 are
      "Z". */
  lemma SingleExample()
    ensures Decode(SingleBits(35) + [0, 0, 0, 0, 0], ALPHANUMERIC_MODE, Some(1)) == Ok("Z")
  {
    DecodeSingle(35, [0, 0, 0, 0, 0]);
  }

  /** The count still to be produced after `used` more characters. */
  function Less(remaining: Option<int>, used: int): Option<int>
  {
    match remaining
    case None => None
    case Some(r) => Some(r - used)
  }

  /** The errors segment decoding can raise. */
  predicate SegmentError(e: Error)
  {
    e == ModeUnknown || e == NotBinary || e.UnmappedMode? || e.UnsupportedVersion?
    || e.NoBlockWidth? || e.UnsupportedMode? || e.AlphanumericIndex?
  }

  /** The block loop: decode each whole block of B bits, asking for the
      characters still outstanding; a trailing partial block is dropped. */
  function DecodeBlocks(bits: seq<int>, B: nat, mode: int, remaining: Option<int>): (r: Result<string>)
    requires B > 0
    ensures r.Err? ==> SegmentError(r.error)
    decreases |bits|
  {
    if |bits| < B then Ok("")
    else
      match Decode(bits[..B], mode, remaining)
      case Err(e) => Err(e)
      case Ok(d) =>
        match DecodeBlocks(bits[B..], B, mode, Less(remaining, |d|))
        case Err(e) => Err(e)
        case Ok(rest) => Ok(d + rest)
  }

  /** Number of whole blocks of B bits in n bits. */
  function BlockCount(n: nat, B: nat): nat
    requires B > 0
    decreases n
  {
    if n < B then 0 else 1 + BlockCount(n - B, B)
  }

  /** Every character decoded is from the table or a placeholder. */
  lemma {:induction false} DecodeBlocksAlphabet(bits: seq<int>, B: nat, mode: int, remaining: Option<int>)
    requires B > 0
    ensures DecodeBlocks(bits, B, mode, remaining).Ok? ==> InAlphabet(DecodeBlocks(bits, B, mode, remaining).value)
    decreases |bits|
  {
    if |bits| >= B {
      var d := Decode(bits[..B], mode, remaining);
      if d.Ok? {
        DecodeBlocksAlphabet(bits[B..], B, mode, Less(remaining, |d.value|));
      }
    }
  }

  /** With a declared count, the loop never produces more characters than
      declared. */
  lemma {:induction false} DecodeBlocksBounded(bits: seq<int>, B: nat, mode: int, r: int)
    requires B > 0
    ensures DecodeBlocks(bits, B, mode, Some(r)).Ok? ==>
              |DecodeBlocks(bits, B, mode, Some(r)).value| <= if r <= 0 then 0 else r
    decreases |bits|
  {
    if |bits| >= B {
      var d := Decode(bits[..B], mode, Some(r));
      if d.Ok? {
        DecodeBlocksBounded(bits[B..], B, mode, r - |d.value|);
      }
    }
  }

  /** In alphanumeric mode each whole block yields two characters until the
      declared count is reached (all of them when the count is unknown). */
  lemma {:induction false} AlphanumericBlocksLength(bits: seq<int>, remaining: Option<int>)
    ensures var r := DecodeBlocks(bits, 11, ALPHANUMERIC_MODE, remaining);
            var produced := 2 * BlockCount(|bits|, 11);
            r.Ok? ==> |r.value| == match remaining
                                   case None => produced
                                   case Some(c) => if c <= 0 then 0 else Min(c, produced)
    decreases |bits|
  {
    if |bits| >= 11 {
      var d := Decode(bits[..11], ALPHANUMERIC_MODE, remaining);
      if d.Ok? {
        AlphanumericBlocksLength(bits[11..], Less(remaining, |d.value|));
      }
    }
  }

  /** Once the declared count is used up, every further block decodes to
      nothing, whatever its bits and whatever the mode. */
  lemma {:induction false} DecodeBlocksExhausted(bits: seq<int>, B: nat, mode: int, r: int)
    requires B > 0 && r <= 0
    ensures DecodeBlocks(bits, B, mode, Some(r)) == Ok("")
    decreases |bits|
  {
    if |bits| >= B {
      assert Decode(bits[..B], mode, Some(r)) == Ok("");
      assert Less(Some(r), 0) == Some(r);
      DecodeBlocksExhausted(bits[B..], B, mode, r);
      assert "" + "" == "";
    }
  }

  /** Numeric and binary blocks are not decoded: the loop fails at the first
      whole block that is asked for characters, and succeeds with nothing
      when there is no such block (a declared count of 0 short-circuits). */
  lemma {:induction false} OtherModesBlocks(bits: seq<int>, B: nat, mode: int, remaining: Option<int>)
    requires B > 0 && mode != ALPHANUMERIC_MODE
    ensures DecodeBlocks(bits, B, mode, remaining)
            == if |bits| < B || (remaining.Some? && remaining.value <= 0) then Ok("")
               else Err(UnsupportedMode(mode))
  {
    if |bits| >= B && remaining.Some? && remaining.value <= 0 {
      DecodeBlocksExhausted(bits, B, mode, remaining.value);
    }
  }

  /** Whole blocks: n is a multiple of B. */
  predicate WholeBlocks(n: nat, B: nat)
    requires B > 0
    decreases n
  {
    n == 0 || (n >= B && WholeBlocks(n - B, B))
  }

  /** Bits after the last whole block are ignored. */
  lemma {:induction false} TrailingBitsIgnored(bits: seq<int>, extra: seq<int>, B: nat, mode: int, remaining: Option<int>)
    requires B > 0 && WholeBlocks(|bits|, B) && |extra| < B
    ensures DecodeBlocks(bits + extra, B, mode, remaining) == DecodeBlocks(bits, B, mode, remaining)
    decreases |bits|
  {
    if |bits| == 0 {
      assert bits + extra == extra;
    } else {
      var all := bits + extra;
      assert all[..B] == bits[..B];
      assert all[B..] == bits[B..] + extra;
      var d := Decode(bits[..B], mode, remaining);
      if d.Ok? {
        TrailingBitsIgnored(bits[B..], extra, B, mode, Less(remaining, |d.value|));
      }
    }
  }

  /** The result of a segment: the declared count (None when a count bit is
      unknown) and the message. */
  datatype SegmentResult = SegmentResult(length: Option<nat>, message: string)

  function Declared(length: Option<nat>): Option<int>
  {
    match length
    case None => None
    case Some(n) => Some(n)
  }

  function BlockWidth(mode: int): (B: nat)
    requires mode in MODEBLOCK
    ensures B > 0
  {
    MODEBLOCK[mode]
  }

  /** The segment part of qrdump, from the bitstream to the message. */
  function SegmentSpec(bitstream: seq<int>, V: int): (r: Result<SegmentResult>)
    ensures r.Err? ==> SegmentError(r.error)
  {
    var modeBits, rest := Take(bitstream, 4), Drop(bitstream, 4);
    if UNKNOWN in modeBits then Err(ModeUnknown)
    else if !AllBits(modeBits) then Err(NotBinary)
    else
      var mode := BinaryValue(modeBits);
      if mode !in MODENAMES then Err(UnmappedMode(mode))
      else
        match ModeLengthLen(V, mode)
        case Err(e) => Err(e)
        case Ok(ll) =>
          var lengthBits, payload := Take(rest, ll), Drop(rest, ll);
          if UNKNOWN !in lengthBits && !AllBits(lengthBits) then Err(NotBinary)
          else
            var length: Option<nat> := if UNKNOWN in lengthBits then None else Some(BinaryValue(lengthBits));
            if mode !in MODEBLOCK then Err(NoBlockWidth(mode))
            else
              match DecodeBlocks(payload, BlockWidth(mode), mode, Declared(length))
              case Err(e) => Err(e)
              case Ok(msg) => Ok(SegmentResult(length, if length.Some? then Take(msg, length.value) else msg))
  }

  function Prefixed(prefix: string, r: Result<string>): Result<string>
  {
    match r
    case Err(e) => Err(e)
    case Ok(s) => Ok(prefix + s)
  }

  lemma PrefixedAppend(a: string, b: string, r: Result<string>)
    ensures Prefixed(a, Prefixed(b, r)) == Prefixed(a + b, r)
  {
    if r.Ok? {
      ConcatAssoc(a, b, r.value);
    }
  }

  /** One iteration of the block loop. */
  lemma DecodeBlocksStep(bits: seq<int>, B: nat, mode: int, remaining: Option<int>)
    requires B > 0 && |bits| >= B && Decode(bits[..B], mode, remaining).Ok?
    ensures var d := Decode(bits[..B], mode, remaining).value;
            DecodeBlocks(bits, B, mode, remaining) == Prefixed(d, DecodeBlocks(bits[B..], B, mode, Less(remaining, |d|)))
  {
  }

  /** What the block loop ends with when it stands at bit i having decoded
      msg so far. */
  function LoopResult(bits: seq<int>, i: nat, B: nat, mode: int, declared: Option<int>, msg: string): Result<string>
    requires B > 0 && i <= |bits|
  {
    Prefixed(msg, DecodeBlocks(bits[i..], B, mode, Less(declared, |msg|)))
  }

  /** At the start the loop still has the whole decode ahead of it. */
  lemma BlockLoopStarts(bits: seq<int>, B: nat, mode: int, declared: Option<int>)
    requires B > 0
    ensures LoopResult(bits, 0, B, mode, declared, "") == DecodeBlocks(bits, B, mode, declared)
  {
    assert bits[0..] == bits;
    assert Less(declared, 0) == declared;
    var whole := DecodeBlocks(bits, B, mode, declared);
    if whole.Ok? {
      assert "" + whole.value == whole.value;
    }
  }

  /** A first whole block that fails to decode fails the loop... */
  lemma BlockLoopFails(bits: seq<int>, i: nat, B: nat, mode: int, declared: Option<int>, msg: string, e: Error)
    requires B > 0 && i + B <= |bits| && Decode(bits[i..i + B], mode, Less(declared, |msg|)) == Err(e)
    ensures LoopResult(bits, i, B, mode, declared, msg) == Err(e)
  {
    SliceOfSuffix(bits, i, B);
  }

  /** ... one that decodes is appended to the message so far... */
  lemma BlockLoopAppends(bits: seq<int>, i: nat, B: nat, mode: int, declared: Option<int>, msg: string, d: string)
    requires B > 0 && i + B <= |bits| && Decode(bits[i..i + B], mode, Less(declared, |msg|)) == Ok(d)
    ensures LoopResult(bits, i, B, mode, declared, msg) == LoopResult(bits, i + B, B, mode, declared, msg + d)
  {
    var remaining := Less(declared, |msg|);
    SliceOfSuffix(bits, i, B);
    DecodeBlocksStep(bits[i..], B, mode, remaining);
    PrefixedAppend(msg, d, DecodeBlocks(bits[i + B..], B, mode, Less(remaining, |d|)));
    assert Less(remaining, |d|) == Less(declared, |msg + d|);
  }

  /** ... and fewer than B bits left end it with the message as it is. */
  lemma BlockLoopEnds(bits: seq<int>, i: nat, B: nat, mode: int, declared: Option<int>, msg: string)
    requires B > 0 && i <= |bits| < i + B
    ensures LoopResult(bits, i, B, mode, declared, msg) == Ok(msg)
  {
    assert msg + "" == msg;
  }

  /** The segment part of qrdump as the source runs it: successive slicing of
      the bitstream and a block loop that appends to the message, then the
      final truncation to the declared count. */
  method DecodeSegment(bitstream: seq<int>, V: int) returns (r: Result<SegmentResult>)
    ensures r == SegmentSpec(bitstream, V)
  {
    var modeBits := Take(bitstream, 4);
    var bits := Drop(bitstream, 4);
    if UNKNOWN in modeBits {
      return Err(ModeUnknown);
    }
    var m := MsbToInt(modeBits);
    if m.None? {
      return Err(NotBinary);
    }
    var mode := m.value;
    if mode !in MODENAMES {
      return Err(UnmappedMode(mode));
    }
    var ll := ModeLengthLen(V, mode);
    if ll.Err? {
      return Err(ll.error);
    }
    var lengthBits := Take(bits, ll.value);
    bits := Drop(bits, ll.value);
    var length: Option<nat>;
    if UNKNOWN in lengthBits {
      length := None;
    } else {
      var l := MsbToInt(lengthBits);
      if l.None? {
        return Err(NotBinary);
      }
      length := Some(l.value);
    }
    if mode !in MODEBLOCK {
      return Err(NoBlockWidth(mode));
    }
    var blocks := DecodeBlockLoop(bits, BlockWidth(mode), mode, length);
    if blocks.Err? {
      return Err(blocks.error);
    }
    var msg := blocks.value;
    if length.Some? {
      msg := Take(msg, length.value);
    }
    return Ok(SegmentResult(length, msg));
  }

  /** The block loop of qrdump: each whole block of B bits is decoded with
      the count still outstanding and appended to the message; a trailing
      partial block ends the loop. */
  method DecodeBlockLoop(bits: seq<int>, B: nat, mode: int, length: Option<nat>) returns (r: Result<string>)
    requires B > 0
    ensures r == DecodeBlocks(bits, B, mode, Declared(length))
  {
    var msg := "";
    var i := 0;
    BlockLoopStarts(bits, B, mode, Declared(length));
    while i < |bits|
      invariant 0 <= i <= |bits|
      invariant LoopResult(bits, i, B, mode, Declared(length), msg) == DecodeBlocks(bits, B, mode, Declared(length))
    {
      if i + B > |bits| {
        break;
      }
      var block := bits[i..i + B];
      var decoded := Decode(block, mode, Less(Declared(length), |msg|));
      if decoded.Err? {
        BlockLoopFails(bits, i, B, mode, Declared(length), msg, decoded.error);
        return Err(decoded.error);
      }
      BlockLoopAppends(bits, i, B, mode, Declared(length), msg, decoded.value);
      msg := msg + decoded.value;
      i := i + B;
    }
    BlockLoopEnds(bits, i, B, mode, Declared(length), msg);
    return Ok(msg);
  }

  /** A segment's message never exceeds its declared count, so the final
      truncation never cuts; and it only holds table characters or '?'. */
  lemma SegmentMessage(bitstream: seq<int>, V: int)
    ensures var r := SegmentSpec(bitstream, V);
            r.Ok? ==> InAlphabet(r.value.message)
                      && (r.value.length.Some? ==> |r.value.message| <= r.value.length.value)
  {
    var r := SegmentSpec(bitstream, V);
    if r.Ok? {
      var modeBits, rest := Take(bitstream, 4), Drop(bitstream, 4);
      var mode := BinaryValue(modeBits);
      var ll := ModeLengthLen(V, mode).value;
      var lengthBits, payload := Take(rest, ll), Drop(rest, ll);
      var length: Option<nat> := if UNKNOWN in lengthBits then None else Some(BinaryValue(lengthBits));
      var B := BlockWidth(mode);
      DecodeBlocksAlphabet(payload, B, mode, Declared(length));
      var msg := DecodeBlocks(payload, B, mode, Declared(length)).value;
      if length.Some? {
        DecodeBlocksBounded(payload, B, mode, length.value);
        assert Take(msg, length.value) == msg;
      }
    }
  }

  /** The bits of an alphanumeric payload: pairs of characters as 11-bit
      values 45 * a + b, a last odd character as a 6-bit value. */
  function EncodeAlphanumeric(ks: seq<nat>): (bits: seq<int>)
    requires forall i :: 0 <= i < |ks| ==> ks[i] < 45
    ensures AllBits(bits)
  {
    if |ks| >= 2 then PairBits(ks[0], ks[1]) + EncodeAlphanumeric(ks[2..])
    else if |ks| == 1 then SingleBits(ks[0])
    else []
  }

  /** The 11-bit block of the character pair with indices a and b. */
  function PairBits(a: nat, b: nat): (bits: seq<int>)
    requires a < 45 && b < 45
    ensures |bits| == PAIR_WIDTH && AllBits(bits)
  {
    ToBits(45 * a + b, PAIR_WIDTH)
  }

  /** The 6-bit block of a lone final character with index k. */
  function SingleBits(k: nat): (bits: seq<int>)
    requires k < 45
    ensures |bits| == SINGLE_WIDTH && AllBits(bits)
  {
    ToBits(k, SINGLE_WIDTH)
  }

  /** The text the indices stand for. */
  function AlphanumericText(ks: seq<nat>): (s: string)
    requires forall i :: 0 <= i < |ks| ==> ks[i] < 45
    ensures |s| == |ks|
  {
    seq(|ks|, i requires 0 <= i < |ks| => TableChar(ks[i]))
  }

  /** Decoding the encoded payload with its declared count gives the text
      back, whatever padding follows (five bits at least, so that a final
      six-bit character still fills a block). */
  lemma {:induction false} AlphanumericBlocksRoundTrip(ks: seq<nat>, pad: seq<int>)
    requires forall i :: 0 <= i < |ks| ==> ks[i] < 45
    requires AllBits(pad) && |pad| >= 5
    ensures DecodeBlocks(EncodeAlphanumeric(ks) + pad, 11, ALPHANUMERIC_MODE, Some(|ks|))
            == Ok(AlphanumericText(ks))
    decreases |ks|
  {
    if |ks| >= 2 {
      var head, tail := PairBits(ks[0], ks[1]), EncodeAlphanumeric(ks[2..]) + pad;
      var d := [TableChar(ks[0]), TableChar(ks[1])];
      assert EncodeAlphanumeric(ks) + pad == head + tail by {
        EncodePairUnfold(ks, pad);
      }
      assert DecodeBlocks(head + tail, 11, ALPHANUMERIC_MODE, Some(|ks|))
             == Prefixed(d, DecodeBlocks(tail, 11, ALPHANUMERIC_MODE, Some(|ks| - 2))) by {
        PairBlockStep(ks[0], ks[1], tail, |ks|);
      }
      assert DecodeBlocks(tail, 11, ALPHANUMERIC_MODE, Some(|ks| - 2)) == Ok(AlphanumericText(ks[2..])) by {
        AlphanumericBlocksRoundTrip(ks[2..], pad);
      }
      TextOfPair(ks);
    } else if |ks| == 1 {
      SingleBlockStep(ks[0], pad);
      assert ks == [ks[0]];
    } else {
      assert EncodeAlphanumeric(ks) + pad == pad;
      DecodeBlocksExhausted(pad, 11, ALPHANUMERIC_MODE, 0);
    }
  }

  /** A pair block holding the indices a and b yields their two characters,
      and the loop continues on the rest with two characters fewer to go. */
  lemma PairBlockStep(a: nat, b: nat, rest: seq<int>, n: nat)
    requires a < 45 && b < 45 && n >= 2
    ensures DecodeBlocks(PairBits(a, b) + rest, 11, ALPHANUMERIC_MODE, Some(n))
            == Prefixed([TableChar(a), TableChar(b)], DecodeBlocks(rest, 11, ALPHANUMERIC_MODE, Some(n - 2)))
  {
    DecodePair(a, b, Some(n));
    DecodeBlocksCons(PairBits(a, b), rest, 11, ALPHANUMERIC_MODE, Some(n), [TableChar(a), TableChar(b)]);
  }

  lemma PairIndices(a: nat, b: nat)
    requires b < 45
    ensures (45 * a + b) / 45 == a && (45 * a + b) % 45 == b
  {
  }

  lemma EncodePairUnfold(ks: seq<nat>, pad: seq<int>)
    requires forall i :: 0 <= i < |ks| ==> ks[i] < 45
    requires |ks| >= 2
    ensures EncodeAlphanumeric(ks) + pad == PairBits(ks[0], ks[1]) + (EncodeAlphanumeric(ks[2..]) + pad)
  {
    ConcatAssoc(PairBits(ks[0], ks[1]), EncodeAlphanumeric(ks[2..]), pad);
  }

  /** The loop on a block followed by more bits. */
  lemma DecodeBlocksCons(block: seq<int>, rest: seq<int>, B: nat, mode: int, remaining: Option<int>, d: string)
    requires |block| == B > 0 && Decode(block, mode, remaining) == Ok(d)
    ensures DecodeBlocks(block + rest, B, mode, remaining) == Prefixed(d, DecodeBlocks(rest, B, mode, Less(remaining, |d|)))
  {
    assert (block + rest)[..B] == block && (block + rest)[B..] == rest;
  }

  lemma TextOfPair(ks: seq<nat>)
    requires forall i :: 0 <= i < |ks| ==> ks[i] < 45
    requires |ks| >= 2
    ensures AlphanumericText(ks) == [TableChar(ks[0]), TableChar(ks[1])] + AlphanumericText(ks[2..])
  {
    var t, rest := AlphanumericText(ks), AlphanumericText(ks[2..]);
    forall i | 0 <= i < |ks| ensures t[i] == ([TableChar(ks[0]), TableChar(ks[1])] + rest)[i] {
      if i >= 2 {
        assert rest[i - 2] == TableChar(ks[2..][i - 2]);
      }
    }
  }

  /** A lone final character fills the last block together with five bits
      of padding; nothing after it is decoded. */
  lemma SingleBlockStep(k: nat, pad: seq<int>)
    requires k < 45 && AllBits(pad) && |pad| >= 5
    ensures DecodeBlocks(EncodeAlphanumeric([k]) + pad, 11, ALPHANUMERIC_MODE, Some(1)) == Ok([TableChar(k)])
    ensures AlphanumericText([k]) == [TableChar(k)]
  {
    var head, rest := SingleBits(k) + pad[..5], pad[5..];
    SingleUnfold(k, pad);
    DecodeSingle(k, pad[..5]);
    DecodeBlocksCons(head, rest, 11, ALPHANUMERIC_MODE, Some(1), [TableChar(k)]);
    DecodeBlocksExhausted(rest, 11, ALPHANUMERIC_MODE, 0);
    assert [TableChar(k)] + "" == [TableChar(k)];
  }

  lemma SingleUnfold(k: nat, pad: seq<int>)
    requires k < 45 && |pad| >= 5
    ensures EncodeAlphanumeric([k]) + pad == (SingleBits(k) + pad[..5]) + pad[5..]
  {
    assert pad == pad[..5] + pad[5..];
    assert EncodeAlphanumeric([k]) == SingleBits(k);
    ConcatAssoc(SingleBits(k), pad[..5], pad[5..]);
  }

  /** The bitstream of a single alphanumeric segment in a version 1-9
      symbol: mode indicator 0010, a 9-bit count, the payload, padding. */
  function EncodeSegment(ks: seq<nat>, pad: seq<int>): (bits: seq<int>)
    requires forall i :: 0 <= i < |ks| ==> ks[i] < 45
    ensures |bits| == 13 + |EncodeAlphanumeric(ks)| + |pad|
    ensures AllBits(pad) ==> AllBits(bits)
  {
    ToBits(ALPHANUMERIC_MODE, 4) + ToBits(|ks|, 9) + (EncodeAlphanumeric(ks) + pad)
  }

  /** An alphanumeric segment with a known count n decodes its payload's
      blocks and keeps at most n characters. */
  lemma AlphanumericSegment(lengthBits: seq<int>, payload: seq<int>, V: int)
    requires 1 <= V <= 40
    requires |lengthBits| == ModeLengthLen(V, ALPHANUMERIC_MODE).value && AllBits(lengthBits)
    ensures var n := BinaryValue(lengthBits);
            SegmentSpec(ToBits(ALPHANUMERIC_MODE, 4) + lengthBits + payload, V)
            == match DecodeBlocks(payload, PAIR_WIDTH, ALPHANUMERIC_MODE, Some(n))
               case Err(e) => Err(e)
               case Ok(msg) => Ok(SegmentResult(Some(n), Take(msg, n)))
  {
    SegmentPrefix(ALPHANUMERIC_MODE, lengthBits, payload, V);
  }

  lemma AlphanumericCountWidth(V: int)
    requires 1 <= V <= 9
    ensures ModeLengthLen(V, ALPHANUMERIC_MODE) == Ok(9)
  {
  }

  /** Decoding an encoded alphanumeric segment gives back its count and its
      text. */
  lemma SegmentRoundTrip(ks: seq<nat>, pad: seq<int>, V: int)
    requires forall i :: 0 <= i < |ks| ==> ks[i] < 45
    requires |ks| < 512 && 1 <= V <= 9
    requires AllBits(pad) && |pad| >= 5
    ensures SegmentSpec(EncodeSegment(ks, pad), V) == Ok(SegmentResult(Some(|ks|), AlphanumericText(ks)))
  {
    AlphanumericCountWidth(V);
    Pow2Widths();
    ToBitsRoundTrip(|ks|, 9);
    AlphanumericSegment(ToBits(|ks|, 9), EncodeAlphanumeric(ks) + pad, V);
    AlphanumericBlocksRoundTrip(ks, pad);
    assert Take(AlphanumericText(ks), |ks|) == AlphanumericText(ks);
  }

  /** Kanji is a known mode with a count width but no block width: the decode
      stops there. */
  lemma KanjiHasNoBlocks(lengthBits: seq<int>, payload: seq<int>, V: int)
    requires 1 <= V <= 40
    requires |lengthBits| == ModeLengthLen(V, 8).value && AllBits(lengthBits)
    ensures SegmentSpec(ToBits(8, 4) + lengthBits + payload, V) == Err(NoBlockWidth(8))
  {
    SegmentPrefix(8, lengthBits, payload, V);
  }

  /** A mode value outside the table (anything but 1, 2, 4, 8) stops the
      decode before the count is read. */
  lemma UnmappedModeRejected(mode: nat, rest: seq<int>, V: int)
    requires mode < 16 && mode !in MODENAMES
    ensures SegmentSpec(ToBits(mode, 4) + rest, V) == Err(UnmappedMode(mode))
  {
    var bits := ToBits(mode, 4) + rest;
    assert Take(bits, 4) == ToBits(mode, 4);
    assert Pow2(4) == 16;
    ToBitsRoundTrip(mode, 4);
    BitsAreKnown(ToBits(mode, 4));
  }

  /** An unknown bit in the mode indicator stops the segment stage. */
  lemma UnknownModeRejected(modeBits: seq<int>, rest: seq<int>, V: int)
    requires |modeBits| == 4 && UNKNOWN in modeBits
    ensures SegmentSpec(modeBits + rest, V) == Err(ModeUnknown)
  {
    assert Take(modeBits + rest, 4) == modeBits;
  }

  /** An unknown bit in the count is not fatal: the count is indeterminate,
      every whole block is asked for as many characters as it holds, and
      the message is not cut. */
  lemma UnknownCountContinues(mode: nat, lengthBits: seq<int>, payload: seq<int>, V: int)
    requires mode in MODEBLOCK && 1 <= V <= 40
    requires |lengthBits| == ModeLengthLen(V, mode).value && UNKNOWN in lengthBits
    ensures SegmentSpec(ToBits(mode, 4) + lengthBits + payload, V)
            == match DecodeBlocks(payload, BlockWidth(mode), mode, Declared(None))
               case Err(e) => Err(e)
               case Ok(msg) => Ok(SegmentResult(None, msg))
  {
    var bits := ToBits(mode, 4) + lengthBits + payload;
    assert Take(bits, 4) == ToBits(mode, 4);
    assert Drop(bits, 4) == lengthBits + payload;
    assert Take(lengthBits + payload, |lengthBits|) == lengthBits;
    assert Drop(lengthBits + payload, |lengthBits|) == payload;
    assert Pow2(4) == 16;
    ToBitsRoundTrip(mode, 4);
    BitsAreKnown(ToBits(mode, 4));
  }

  /** How a known mode indicator and a known count split the bitstream. */
  lemma SegmentPrefix(mode: nat, lengthBits: seq<int>, payload: seq<int>, V: int)
    requires mode in MODENAMES && 1 <= V <= 40
    requires |lengthBits| == ModeLengthLen(V, mode).value && AllBits(lengthBits)
    ensures var bits := ToBits(mode, 4) + lengthBits + payload;
            && Take(bits, 4) == ToBits(mode, 4) && AllBits(Take(bits, 4)) && UNKNOWN !in Take(bits, 4)
            && BinaryValue(Take(bits, 4)) == mode
            && Take(Drop(bits, 4), |lengthBits|) == lengthBits && UNKNOWN !in lengthBits
            && Drop(Drop(bits, 4), |lengthBits|) == payload
  {
    var bits := ToBits(mode, 4) + lengthBits + payload;
    assert Take(bits, 4) == ToBits(mode, 4);
    assert Drop(bits, 4) == lengthBits + payload;
    assert Take(Drop(bits, 4), |lengthBits|) == lengthBits;
    assert Drop(Drop(bits, 4), |lengthBits|) == payload;
    assert Pow2(4) == 16;
    ToBitsRoundTrip(mode, 4);
    BitsAreKnown(ToBits(mode, 4));
    BitsAreKnown(lengthBits);
  }

  /** Numeric and binary segments are not decoded, yet one that declares
      zero characters succeeds with an empty message, and so does one whose
      payload holds no whole block. Otherwise they fail. */
  lemma OtherModesSegment(mode: nat, lengthBits: seq<int>, payload: seq<int>, V: int)
    requires mode == 1 || mode == 4
    requires 1 <= V <= 40
    requires |lengthBits| == ModeLengthLen(V, mode).value && AllBits(lengthBits)
    ensures var n := BinaryValue(lengthBits);
            SegmentSpec(ToBits(mode, 4) + lengthBits + payload, V)
            == if n == 0 || |payload| < MODEBLOCK[mode] then Ok(SegmentResult(Some(n), ""))
               else Err(UnsupportedMode(mode))
  {
    SegmentPrefix(mode, lengthBits, payload, V);
    var n := BinaryValue(lengthBits);
    OtherModesBlocks(payload, BlockWidth(mode), mode, Some(n));
  }
}
