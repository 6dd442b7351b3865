/**
  Ranges over ordered constants (CRange).

  A constant is a `real`: a dense order without end points (`AnyOrder` has the same for any
  comparator). A missing end point is an infinite end. All operations
  branch exactly as the original does; their contracts say what the branches amount to
  in terms of the points that a range holds.
 */
module Ranges {
  import opened Options

  type Datum = real

  datatype Range = Range(left: Option<Datum>, leftIncl: bool, right: Option<Datum>, rightIncl: bool) {

    /** The representation invariant: an infinite end is excluded, and the range holds a point. */
    predicate Valid() {
      && (left.None? ==> !leftIncl)
      && (right.None? ==> !rightIncl)
      && (left.Some? && right.Some? ==>
            left.value < right.value || (left.value == right.value && leftIncl && rightIncl))
    }

    /** x is not cut off by the left end. */
    predicate PastLeft(x: Datum) {
      left.None? || left.value < x || (leftIncl && left.value == x)
    }

    /** x is not cut off by the right end. */
    predicate BeforeRight(x: Datum) {
      right.None? || x < right.value || (rightIncl && right.value == x)
    }

    predicate Has(x: Datum) {
      PastLeft(x) && BeforeRight(x)
    }

    // ----- comparisons of end points -----

    predicate DisjointLeft(s: Range) {
      right.Some? && s.left.Some? &&
      (right.value < s.left.value || (right.value == s.left.value && (!rightIncl || !s.leftIncl)))
    }

    predicate StartsBefore(s: Range) {
      if s.left.None? then left.None?
      else if left.None? || left.value < s.left.value then true
      else if left.value > s.left.value then false
      else leftIncl && !s.leftIncl
    }

    predicate StartsWithOrBefore(s: Range) {
      StartsBefore(s) ||
      (if s.left.None? && left.None? then true
       else if s.left.None? || left.None? then false
       else left.value == s.left.value && leftIncl == s.leftIncl)
    }

    predicate EndsAfter(s: Range) {
      if s.right.None? then right.None?
      else if right.None? || right.value > s.right.value then true
      else if right.value < s.right.value then false
      else rightIncl && !s.rightIncl
    }

    predicate EndsWithOrAfter(s: Range) {
      EndsAfter(s) ||
      (if s.right.None? && right.None? then true
       else if s.right.None? || right.None? then false
       else right.value == s.right.value && rightIncl == s.rightIncl)
    }

    predicate Contains(s: Range) {
      StartsWithOrBefore(s) && EndsWithOrAfter(s)
    }

    predicate OverlapsLeft(s: Range) {
      StartsBefore(s) && !EndsAfter(s) && !DisjointLeft(s)
    }

    predicate OverlapsRight(s: Range) {
      EndsAfter(s) && !StartsBefore(s) && !s.DisjointLeft(this)
    }

    predicate UpperBoundEqualsLowerBound(s: Range) {
      if s.left.None? && right.None? then true
      else if s.left.None? || right.None? then false
      else right.value == s.left.value
    }

    /** The original compares both ends unconditionally once both are included. */
    predicate IsPoint()
      requires Valid()
    {
      leftIncl && rightIncl && left.value == right.value
    }

    predicate IsUnbounded() {
      left.None? && right.None?
    }

    /** There is room for a point between the two ranges, so that they cannot be merged. */
    predicate Separated(s: Range) {
      right.Some? && s.left.Some? &&
      (right.value < s.left.value || (right.value == s.left.value && !rightIncl && !s.leftIncl))
    }

    // ----- operations -----

    /** The points common to both ranges; missing exactly when there are none. */
    function Intersect(s: Range): (r: Option<Range>)
      requires Valid() && s.Valid()
      ensures r.Some? ==> r.value.Valid() && Contains(r.value) && s.Contains(r.value)
                          && forall x :: r.value.Has(x) <==> Has(x) && s.Has(x)
      ensures r.None? ==> forall x :: !(Has(x) && s.Has(x))
    {
      if Contains(s) then Some(s)
      else if s.Contains(this) then Some(this)
      else if OverlapsLeft(s) then Some(Range(s.left, s.leftIncl, right, rightIncl))
      else if OverlapsRight(s) then Some(Range(left, leftIncl, s.right, s.rightIncl))
      else None
    }

    /** The part of this range that lies before the start of `s`; missing exactly when empty. */
    function DifferenceLeft(s: Range): (r: Option<Range>)
      requires Valid() && s.Valid()
      ensures r.Some? ==> r.value.Valid() && r.value.DisjointLeft(s)
                          && forall x :: r.value.Has(x) <==> Has(x) && !s.PastLeft(x)
      ensures r.None? ==> forall x :: Has(x) ==> s.PastLeft(x)
    {
      if DisjointLeft(s) then Some(this)
      else if s.left.Some? && StartsBefore(s) then Some(Range(left, leftIncl, s.left, !s.leftIncl))
      else None
    }

    /** The part of this range that lies after the end of `s`; missing exactly when empty. */
    function DifferenceRight(s: Range): (r: Option<Range>)
      requires Valid() && s.Valid()
      ensures r.Some? ==> r.value.Valid() && s.DisjointLeft(r.value)
                          && forall x :: r.value.Has(x) <==> Has(x) && !s.BeforeRight(x)
      ensures r.None? ==> forall x :: Has(x) ==> s.BeforeRight(x)
    {
      if s.DisjointLeft(this) then Some(this)
      else if s.right.Some? && EndsAfter(s) then Some(Range(s.right, !s.rightIncl, right, rightIncl))
      else None
    }

    /**
      Merges this range with one that starts right after it. The equality test of the original
      reads both end points as soon as one of the two inclusion flags is set: the precondition
      is what keeps it from comparing a missing end point.
     */
    function Extend(s: Range): (r: Option<Range>)
      requires Valid() && s.Valid()
      requires s.leftIncl || rightIncl ==> s.left.Some? && right.Some?
      ensures r.Some? ==> r.value.Valid() && r.value.left == left && r.value.leftIncl == leftIncl
                          && r.value.right == s.right && r.value.rightIncl == s.rightIncl
                          && forall x :: r.value.Has(x) <==> Has(x) || s.Has(x)
      ensures r.None? && DisjointLeft(s) ==> Separated(s)
      ensures r.Some? ==> !Separated(s)
    {
      if (s.leftIncl || rightIncl) && s.left.value == right.value
      then Some(Range(left, leftIncl, s.right, s.rightIncl))
      else None
    }

    /** Some point of the range. */
    function Point(): (x: Datum)
      requires Valid()
      ensures Has(x)
    {
      if left.Some? && right.Some? then
        (if left.value == right.value then left.value else (left.value + right.value) / 2.0)
      else if left.Some? then left.value + 1.0
      else if right.Some? then right.value - 1.0
      else 0.0
    }
  }

  // ----- the end point comparisons mean what their names say -----

  /** One range is to the left of another exactly when all its points are smaller. */
  lemma DisjointLeftMeaning(r: Range, s: Range)
    requires r.Valid() && s.Valid()
    ensures r.DisjointLeft(s) <==> forall x, y :: r.Has(x) && s.Has(y) ==> x < y
  {
    if !r.DisjointLeft(s) {
      var common := r.Intersect(s);
      if common.Some? {
        assert r.Has(common.value.Point()) && s.Has(common.value.Point());
      } else {
        assert s.DisjointLeft(r);
        assert r.Has(r.Point()) && s.Has(s.Point());
      }
    }
  }

  /** A point, by its end points, is a range with a single element. */
  lemma PointMeaning(r: Range)
    requires r.Valid()
    ensures r.IsPoint() <==> forall x, y :: r.Has(x) && r.Has(y) ==> x == y
  {
    if !r.IsPoint() {
      var x := r.Point();
      var y := if r.right.None? then x + 1.0 else if r.left.None? then x - 1.0 else (x + r.right.value) / 2.0;
      assert x != y && r.Has(x) && r.Has(y);
    }
  }

  /** Containment of ranges is inclusion of their points, in both directions. */
  lemma ContainsMeaning(r: Range, s: Range)
    requires r.Valid() && s.Valid()
    ensures r.Contains(s) <==> forall x :: s.Has(x) ==> r.Has(x)
  {
    var before, after := s.DifferenceLeft(r), s.DifferenceRight(r);
    if before.Some? {
      assert s.Has(before.value.Point()) && !r.Has(before.value.Point());
    }
    if after.Some? {
      assert s.Has(after.value.Point()) && !r.Has(after.value.Point());
    }
  }
}
