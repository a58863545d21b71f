/** The eight data-mask patterns (qrdump.py:48-65), selected by a 3-bit id,
    and the same patterns as written in Table 10 of ISO/IEC 18004:2006
    (section 6.8.1), where i is the row and j the column.
    For a positive divisor Dafny's `/` and `%` agree with Python's `//` and `%`,
    so the formulas below read the same for every integer row and column. */
module Masks {
  import opened Common
  import opened Bits

  /** mask(maskid, y, x): 1 where the pattern darkens the module, 0 elsewhere;
      an id outside 0..7 is an error. */
  function Mask(maskId: int, y: int, x: int): (r: Option<int>)
    ensures r.Some? <==> 0 <= maskId <= 7
    ensures r.Some? ==> IsBit(r.value)
  {
    if maskId == 0 then Some(if (y + x) % 2 == 0 then 1 else 0)
    else if maskId == 1 then Some(if y % 2 == 0 then 1 else 0)
    else if maskId == 2 then Some(if x % 3 == 0 then 1 else 0)
    else if maskId == 3 then Some(if (y + x) % 3 == 0 then 1 else 0)
    else if maskId == 4 then Some(if (y / 2 + x / 3) % 2 == 0 then 1 else 0)
    else if maskId == 5 then Some(if (y * x) % 2 + (y * x) % 3 == 0 then 1 else 0)
    else if maskId == 6 then Some(if (y * x + (y * x) % 3) % 2 == 0 then 1 else 0)
    else if maskId == 7 then Some(if (y + x + (y * x) % 3) % 2 == 0 then 1 else 0)
    else None
  }

  /** The mask-pattern conditions of Table 10, as the standard writes them. */
  predicate StandardCondition(reference: int, i: int, j: int)
    requires 0 <= reference <= 7
  {
    match reference
    case 0 => (i + j) % 2 == 0
    case 1 => i % 2 == 0
    case 2 => j % 3 == 0
    case 3 => (i + j) % 3 == 0
    case 4 => ((i / 2) + (j / 3)) % 2 == 0
    case 5 => (i * j) % 2 + (i * j) % 3 == 0
    case 6 => ((i * j) % 2 + (i * j) % 3) % 2 == 0
    case 7 => ((i + j) % 2 + (i * j) % 3) % 2 == 0
  }

  lemma ModTwoOfSum(a: int, b: int)
    ensures (a + b) % 2 == (a % 2 + b) % 2
  {
    var q := a / 2;
    assert a == 2 * q + a % 2;
    assert a + b == 2 * q + (a % 2 + b);
  }

  /** Each of the eight masks darkens exactly the modules where the standard's
      condition holds (ids 6 and 7 are written differently in the decoder). */
  lemma MaskIsStandard(maskId: int, y: int, x: int)
    requires 0 <= maskId <= 7
    ensures Mask(maskId, y, x) == Some(if StandardCondition(maskId, y, x) then 1 else 0)
  {
    if maskId == 6 {
      ModTwoOfSum(y * x, (y * x) % 3);
    } else if maskId == 7 {
      ModTwoOfSum(y + x, (y * x) % 3);
    }
  }
}
