/** Trinary cells, their binary value and the two cell-wise operations of the
    decoder: merging two readings of the same bit and XOR lifted over unknowns
    (qrdump.py:37-46 and qrdump.py:101-108). A cell is -1 (unknown), 0 (light)
    or 1 (dark). */
module Bits {
  import opened Common

  const UNKNOWN: int := -1

  predicate IsTrit(b: int) { b == -1 || b == 0 || b == 1 }

  predicate IsBit(b: int) { b == 0 || b == 1 }

  predicate AllTrits(s: seq<int>) { forall i :: 0 <= i < |s| ==> IsTrit(s[i]) }

  predicate AllBits(s: seq<int>) { forall i :: 0 <= i < |s| ==> IsBit(s[i]) }

  /** A list of bits holds no unknown cell. */
  lemma BitsAreKnown(s: seq<int>)
    requires AllBits(s)
    ensures UNKNOWN !in s
  {
  }

  function Pow2(n: nat): (r: nat)
    ensures r >= 1
  {
    if n == 0 then 1 else 2 * Pow2(n - 1)
  }

  /** The number a list of bits denotes, read most-significant bit first. */
  function BinaryValue(s: seq<int>): nat
    requires AllBits(s)
  {
    if s == [] then 0 else 2 * BinaryValue(s[..|s| - 1]) + s[|s| - 1]
  }

  /** The n-bit most-significant-first representation of v (its low n bits):
      the encoder the binary value inverts. */
  function ToBits(v: nat, n: nat): (r: seq<int>)
    ensures |r| == n && AllBits(r)
  {
    if n == 0 then [] else ToBits(v / 2, n - 1) + [v % 2]
  }

  /** msb_to_int: the accumulator loop; any element other than 0 or 1 is an error. */
  method MsbToInt(s: seq<int>) returns (r: Option<nat>)
    ensures r.Some? <==> AllBits(s)
    ensures r.Some? ==> r.value == BinaryValue(s) && r.value < Pow2(|s|)
  {
    var x := 0;
    var i := 0;
    while i < |s|
      invariant 0 <= i <= |s|
      invariant AllBits(s[..i])
      invariant x == BinaryValue(s[..i]) && x < Pow2(i)
    {
      if !IsBit(s[i]) {
        return None;
      }
      assert s[..i + 1][..i] == s[..i];
      x := 2 * x + s[i];
      i := i + 1;
    }
    assert s[..i] == s;
    return Some(x);
  }

  lemma {:induction false} BinaryValueBound(s: seq<int>)
    requires AllBits(s)
    ensures BinaryValue(s) < Pow2(|s|)
  {
    if s != [] {
      BinaryValueBound(s[..|s| - 1]);
    }
  }

  /** Encoding a value below 2^n and reading it back gives the value. */
  lemma {:induction false} ToBitsRoundTrip(v: nat, n: nat)
    requires v < Pow2(n)
    ensures BinaryValue(ToBits(v, n)) == v
  {
    if n > 0 {
      var r := ToBits(v, n);
      assert r[..|r| - 1] == ToBits(v / 2, n - 1);
      ToBitsRoundTrip(v / 2, n - 1);
    }
  }

  /** Reading a bit list and encoding it back at the same width gives the list:
      the binary value determines the bits. */
  lemma {:induction false} BinaryValueRoundTrip(s: seq<int>)
    requires AllBits(s)
    ensures ToBits(BinaryValue(s), |s|) == s
  {
    if s != [] {
      var init := s[..|s| - 1];
      var v := BinaryValue(s);
      assert v / 2 == BinaryValue(init) && v % 2 == s[|s| - 1];
      BinaryValueRoundTrip(init);
      assert init + [s[|s| - 1]] == s;
    }
  }

  /** `a` is no more informed than `b`: either unknown or equal. */
  predicate Refines(a: int, b: int) { a == UNKNOWN || a == b }

  /** merge: reconcile two readings of one bit. It is the join of the two in the
      information order (unknown below both bits), and fails exactly when the
      two readings have no common refinement. */
  function Merge(a: int, b: int): (r: Option<int>)
    ensures r.Some? ==> Refines(a, r.value) && Refines(b, r.value)
    ensures r.Some? ==> forall c :: Refines(a, c) && Refines(b, c) ==> Refines(r.value, c)
    ensures r.None? ==> forall c :: !(Refines(a, c) && Refines(b, c))
    ensures r.Some? && IsTrit(a) && IsTrit(b) ==> IsTrit(r.value)
  {
    if a == UNKNOWN then Some(b)
    else if b == UNKNOWN then Some(a)
    else if a != b then None
    else Some(a)
  }

  /** The algebra of merge listed for the format reader: unknown is absorbed,
      equal readings pass, two different bits conflict, and the order of the
      two readings does not matter. */
  lemma MergeLaws(a: int, b: int)
    ensures Merge(UNKNOWN, b) == Some(b) && Merge(a, UNKNOWN) == Some(a)
    ensures Merge(a, a) == Some(a)
    ensures IsBit(a) && IsBit(b) && a != b ==> Merge(a, b).None?
    ensures Merge(a, b) == Merge(b, a)
  {
  }

  /** lift(xor) applied to two cells: unknown if either is unknown, otherwise
      the exclusive or. */
  function LiftXor(a: int, b: int): (r: int)
    requires IsTrit(a) && IsTrit(b)
    ensures IsTrit(r)
    ensures r == UNKNOWN <==> a == UNKNOWN || b == UNKNOWN
    ensures r != UNKNOWN ==> (r == 1 <==> a != b)
  {
    if a == UNKNOWN || b == UNKNOWN then UNKNOWN
    else if a == b then 0 else 1
  }

  /** XOR with a known bit undoes itself: demasking is its own inverse. */
  lemma LiftXorInvolution(a: int, m: int)
    requires IsTrit(a) && IsBit(m)
    ensures LiftXor(LiftXor(a, m), m) == a
  {
  }

  /** The truth table the format reader relies on. */
  lemma LiftXorTable(x: int)
    requires IsTrit(x)
    ensures LiftXor(UNKNOWN, x) == UNKNOWN && LiftXor(x, UNKNOWN) == UNKNOWN
    ensures LiftXor(0, 0) == 0 && LiftXor(1, 0) == 1 && LiftXor(0, 1) == 1 && LiftXor(1, 1) == 0
  {
  }
}
