/**
 * The truncated percentage that both Enrollment.update_progress and the
 * skill-gap analysis compute: part / whole * 100 stored as an integer, and
 * 100 when there is nothing to complete.
 */
module Percent {

  /** Within 0..100 as long as the part does not exceed the whole, and 100
      exactly when the part is all of the whole. */
  function TruncatedPercent(part: nat, whole: nat): (r: int)
    ensures whole == 0 ==> r == 100
    ensures part <= whole ==> 0 <= r <= 100 && (r == 100 <==> part == whole)
  {
    if whole == 0 then 100 else part * 100 / whole
  }

  /** The exact ratio of a part to a non-empty whole it does not exceed: a
      fraction within 0..1 that gives the part back when multiplied by the
      whole. */
  function Ratio(part: nat, whole: nat): (q: real)
    requires 0 < whole && part <= whole
    ensures q == part as real / whole as real
    ensures q * whole as real == part as real
    ensures 0.0 <= q <= 1.0
    ensures q == 0.0 <==> part == 0
    ensures q == 1.0 <==> part == whole
  {
    var q := part as real / whole as real;
    assert q * whole as real == part as real;
    assert q * whole as real <= 1.0 * whole as real;
    q
  }

  /** Python's int(part / whole * 100), computed over exact rationals: the
      integer part of the real ratio is the integer division. */
  function RatioPercent(part: nat, whole: nat): int
    requires whole > 0
  {
    ((part as real / whole as real) * 100.0).Floor
  }

  lemma RatioPercentIsTruncated(part: nat, whole: nat)
    requires whole > 0
    ensures RatioPercent(part, whole) == TruncatedPercent(part, whole)
  {
    var q := part * 100 / whole;
    var x := (part as real / whole as real) * 100.0;
    assert x == (part * 100) as real / whole as real;
    assert q * whole <= part * 100 < (q + 1) * whole;
    assert (q * whole) as real <= (part * 100) as real < ((q + 1) * whole) as real;
    assert q as real * whole as real <= x * whole as real < (q + 1) as real * whole as real;
    assert q as real <= x < (q + 1) as real;
  }
}
