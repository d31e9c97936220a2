/** Ruby `Range` semantics over instants (integer seconds), as the visibility
    evaluator uses them: `a..b` is closed at both ends, `a..nil` is endless,
    a range whose end lies before its begin is empty, and `cover?(nil)` is false. */
module TimeRanges {
  import opened Wrappers

  /** `lo..hi` or the endless `lo..`. */
  datatype TimeRange = Bounded(lo: int, hi: int) | Endless(lo: int)

  /** The range's end, `nil` for an endless range. */
  function EndOf(r: TimeRange): Option<int> {
    match r
    case Bounded(_, hi) => Some(hi)
    case Endless(_) => None
  }

  /** Ruby's `empty_region_p(beg, end, false)`: a region is empty only when
      both ends exist and the begin comes after the end. */
  predicate EmptyRegion(beg: int, end: Option<int>) {
    end.Some? && beg > end.value
  }

  predicate IsEmpty(r: TimeRange) {
    EmptyRegion(r.lo, EndOf(r))
  }

  /** `a.overlap?(b)` step by step as Ruby's `range_overlap` decides it for
      two ranges with a begin: the cross checks first, then equal begins,
      then emptiness of either range. */
  predicate Overlaps(a: TimeRange, b: TimeRange) {
    if EmptyRegion(a.lo, EndOf(b)) then false
    else if EmptyRegion(b.lo, EndOf(a)) then false
    else if a.lo == b.lo then true
    else if IsEmpty(a) then false
    else if IsEmpty(b) then false
    else true
  }

  /** The instant `t` lies in the closed (or endless) range. */
  predicate Contains(r: TimeRange, t: int) {
    r.lo <= t && (r.Endless? || t <= r.hi)
  }

  /** `r.cover?(t)`: an absent instant is never covered. */
  predicate Covers(r: TimeRange, t: Option<int>) {
    t.Some? && Contains(r, t.value)
  }

  /** `inner` is a sub-range of `outer`: it starts no earlier and ends no later. */
  predicate Within(inner: TimeRange, outer: TimeRange) {
    outer.lo <= inner.lo &&
    (outer.Endless? || (inner.Bounded? && inner.hi <= outer.hi))
  }

  /** Ruby's step-by-step `overlap?` means exactly that some instant lies in
      both ranges; so touching endpoints count and an empty range never
      overlaps. */
  lemma OverlapsIffCommonInstant(a: TimeRange, b: TimeRange)
    ensures Overlaps(a, b) <==> exists t :: Contains(a, t) && Contains(b, t)
  {
    if Overlaps(a, b) {
      var t := if a.lo < b.lo then b.lo else a.lo;
      assert Contains(a, t) && Contains(b, t);
    }
  }

  lemma EmptyNeverOverlaps(a: TimeRange, b: TimeRange)
    requires IsEmpty(a) || IsEmpty(b)
    ensures !Overlaps(a, b)
  {
  }

  lemma OverlapsSymmetric(a: TimeRange, b: TimeRange)
    ensures Overlaps(a, b) == Overlaps(b, a)
  {
    OverlapsIffCommonInstant(a, b);
    OverlapsIffCommonInstant(b, a);
  }

  /** Widening the second range never loses an overlap or a covered instant. */
  lemma OverlapsMonotone(a: TimeRange, b: TimeRange, wider: TimeRange)
    requires Within(b, wider)
    ensures Overlaps(a, b) ==> Overlaps(a, wider)
  {
    OverlapsIffCommonInstant(a, b);
    OverlapsIffCommonInstant(a, wider);
    if Overlaps(a, b) {
      var t :| Contains(a, t) && Contains(b, t);
      assert Contains(wider, t);
    }
  }

  lemma CoversMonotone(r: TimeRange, wider: TimeRange, t: Option<int>)
    requires Within(r, wider)
    ensures Covers(r, t) ==> Covers(wider, t)
  {
  }
}
