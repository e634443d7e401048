/** Clamping a value, in place, into a range given by a lower and an upper
    bound. The value is first compared with the lower bound and, only when
    it is not below it, with the upper bound; so with the bounds the wrong
    way round a value below the lower bound becomes the lower bound and any
    other value becomes the upper bound. Modelled on mathematical integers.
 */
module Clamping {

  function Min(a: int, b: int): int { if a <= b then a else b }
  function Max(a: int, b: int): int { if a <= b then b else a }

  /** Distance between two integers. */
  function Dist(a: int, b: int): nat { if a <= b then b - a else a - b }

  /** The value that clamping leaves in `x`. When the range is not empty,
      the result lies in it, a value already in it is kept, and the result
      is the point of the range nearest to `x`. */
  function Clamped(x: int, lo: int, hi: int): (r: int)
    ensures lo <= hi ==> lo <= r <= hi
    ensures lo <= x <= hi ==> r == x
    ensures lo <= hi ==> forall y :: lo <= y <= hi ==> Dist(r, x) <= Dist(y, x)
  {
    if x < lo then lo else if x > hi then hi else x
  }

  /** Clamps `x` into [lo, hi]: `x` is the reference argument, which comes
      in as `x` and leaves as `x'`. */
  method Clamp(x: int, lo: int, hi: int) returns (x': int)
    ensures x' == Clamped(x, lo, hi)
  {
    x' := x;
    if x' < lo {
      x' := lo;
    } else if x' > hi {
      x' := hi;
    }
  }

  /** For a non-empty range, clamping is the usual composition of the two
      one-sided bounds. */
  lemma ClampedIsMaxOfMin(x: int, lo: int, hi: int)
    requires lo <= hi
    ensures Clamped(x, lo, hi) == Max(lo, Min(x, hi))
    ensures Clamped(x, lo, hi) == Min(hi, Max(x, lo))
  {
  }

  /** A value outside a non-empty range goes to the bound on its side. */
  lemma ClampedOutsideGoesToBound(x: int, lo: int, hi: int)
    requires lo <= hi
    ensures x < lo ==> Clamped(x, lo, hi) == lo
    ensures hi < x ==> Clamped(x, lo, hi) == hi
  {
  }

  /** With the bounds the wrong way round, the result is one of the two
      bounds: the lower one exactly when `x` is below it. */
  lemma ClampedInvertedBounds(x: int, lo: int, hi: int)
    requires hi < lo
    ensures Clamped(x, lo, hi) == (if x < lo then lo else hi)
    ensures Clamped(x, lo, hi) < lo <==> lo <= x
  {
  }

  /** Clamping twice into the same non-empty range changes nothing more. */
  lemma ClampedIdempotent(x: int, lo: int, hi: int)
    requires lo <= hi
    ensures Clamped(Clamped(x, lo, hi), lo, hi) == Clamped(x, lo, hi)
  {
  }

  /** Clamping into a non-empty range keeps the order of the values. */
  lemma ClampedMonotone(x: int, y: int, lo: int, hi: int)
    requires lo <= hi && x <= y
    ensures Clamped(x, lo, hi) <= Clamped(y, lo, hi)
  {
  }

  /** The values that clamping into a non-empty range leaves unchanged are
      exactly those in the range. */
  lemma ClampedFixedPoints(x: int, lo: int, hi: int)
    requires lo <= hi
    ensures Clamped(x, lo, hi) == x <==> lo <= x <= hi
  {
  }
}
