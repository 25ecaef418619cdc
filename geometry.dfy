/** Interval arithmetic on page coordinates (`overlap` in pdf2data/pdf.py). */
module Geometry {

  function Max(a: real, b: real): real { if a >= b then a else b }

  function Min(a: real, b: real): real { if a <= b then a else b }

  function Abs(a: real): real { if a >= 0.0 then a else -a }

  /** Length of the intersection of `[aMin, aMax]` and `[bMin, bMax]`, clamped
      at zero. The Python code asserts that the second interval is
      well-formed, so that is demanded of every caller. */
  function Overlap(aMin: real, aMax: real, bMin: real, bMax: real): (r: real)
    requires bMin <= bMax
    ensures r >= 0.0
  {
    var beginOverlap := Max(aMin, bMin);
    var endOverlap := Min(aMax, bMax);
    Max(0.0, endOverlap - beginOverlap)
  }

  /** The overlap is positive exactly when the two intervals share more than
      a point. */
  lemma OverlapPositive(aMin: real, aMax: real, bMin: real, bMax: real)
    requires bMin <= bMax
    ensures Overlap(aMin, aMax, bMin, bMax) > 0.0 <==> aMin < aMax && bMin < bMax && aMin < bMax && bMin < aMax
  {
  }

  /** The overlap is never longer than either interval, and is the length of
      the shared stretch in each way two intervals can lie. */
  lemma OverlapLength(aMin: real, aMax: real, bMin: real, bMax: real)
    requires bMin <= bMax
    ensures Overlap(aMin, aMax, bMin, bMax) <= bMax - bMin
    ensures aMin <= aMax ==> Overlap(aMin, aMax, bMin, bMax) <= aMax - aMin
    // the second interval inside the first: its whole length
    ensures aMin <= bMin && bMax <= aMax ==> Overlap(aMin, aMax, bMin, bMax) == bMax - bMin
    // the first interval inside the second: its whole length
    ensures bMin <= aMin <= aMax <= bMax ==> Overlap(aMin, aMax, bMin, bMax) == aMax - aMin
    // the second interval sticks out to the right of the first
    ensures aMin <= bMin <= aMax <= bMax ==> Overlap(aMin, aMax, bMin, bMax) == aMax - bMin
    // the second interval sticks out to the left of the first
    ensures bMin <= aMin <= bMax <= aMax ==> Overlap(aMin, aMax, bMin, bMax) == bMax - aMin
    // touching or disjoint intervals do not overlap
    ensures aMax <= bMin || bMax <= aMin ==> Overlap(aMin, aMax, bMin, bMax) == 0.0
  {
  }

  /** Between well-formed intervals the overlap does not depend on their order. */
  lemma OverlapSymmetric(aMin: real, aMax: real, bMin: real, bMax: real)
    requires aMin <= aMax && bMin <= bMax
    ensures Overlap(aMin, aMax, bMin, bMax) == Overlap(bMin, bMax, aMin, aMax)
  {
  }
}
