/**
  Difference and containment of intervals over constants of any type, compared by any comparator
  (IComparator) that orders them.

  A run compares only end points, and of these there are finitely many. So the constants can be
  mapped to numbers in a way that no comparison with an end point notices, and what is proved in
  `IntervalSweeps` about the numbers holds for the constants.
 */
module AnyOrder {
  import opened Options
  import opened Ranges
  import opened Intervals
  import Sweeps = IntervalSweeps

  // ----- comparators -----

  /** `lt` orders the constants; constants of which neither is less count as equal. */
  ghost predicate Orders<T(!new)>(lt: (T, T) -> bool) {
    && (forall x :: !lt(x, x))
    && (forall x, y, z :: lt(x, y) && lt(y, z) ==> lt(x, z))
    && (forall x, y, z :: lt(x, z) ==> lt(x, y) || lt(y, z))
  }

  /** There are constants, and between any two and beyond any one there is another. */
  ghost predicate Dense<T(!new)>(lt: (T, T) -> bool) {
    && (forall x, y :: HasBetween(lt, x, y))
    && (forall x :: HasAbove(lt, x) && HasBelow(lt, x))
    && (exists x :: HasAbove(lt, x))
  }

  ghost predicate HasBetween<T(!new)>(lt: (T, T) -> bool, x: T, y: T) {
    lt(x, y) ==> exists z :: lt(x, z) && lt(z, y)
  }

  ghost predicate HasAbove<T(!new)>(lt: (T, T) -> bool, x: T) {
    exists y :: lt(x, y)
  }

  ghost predicate HasBelow<T(!new)>(lt: (T, T) -> bool, x: T) {
    exists y :: lt(y, x)
  }

  predicate Same<T>(lt: (T, T) -> bool, x: T, y: T) {
    !lt(x, y) && !lt(y, x)
  }

  // ----- ranges over such constants -----

  datatype RangeOver<T> = RangeOver(left: Option<T>, leftIncl: bool, right: Option<T>, rightIncl: bool) {

    predicate Valid(lt: (T, T) -> bool) {
      && (left.None? ==> !leftIncl)
      && (right.None? ==> !rightIncl)
      && (left.Some? && right.Some? ==>
            lt(left.value, right.value) || (Same(lt, left.value, right.value) && leftIncl && rightIncl))
    }

    predicate Has(lt: (T, T) -> bool, x: T) {
      && (left.None? || lt(left.value, x) || (leftIncl && Same(lt, left.value, x)))
      && (right.None? || lt(x, right.value) || (rightIncl && Same(lt, right.value, x)))
    }

    predicate DisjointLeft(lt: (T, T) -> bool, s: RangeOver<T>) {
      right.Some? && s.left.Some? &&
      (lt(right.value, s.left.value) || (Same(lt, right.value, s.left.value) && (!rightIncl || !s.leftIncl)))
    }

    predicate Separated(lt: (T, T) -> bool, s: RangeOver<T>) {
      right.Some? && s.left.Some? &&
      (lt(right.value, s.left.value) || (Same(lt, right.value, s.left.value) && !rightIncl && !s.leftIncl))
    }

    predicate StartsBefore(lt: (T, T) -> bool, s: RangeOver<T>) {
      if s.left.None? then left.None?
      else if left.None? || lt(left.value, s.left.value) then true
      else if lt(s.left.value, left.value) then false
      else leftIncl && !s.leftIncl
    }

    predicate StartsWithOrBefore(lt: (T, T) -> bool, s: RangeOver<T>) {
      StartsBefore(lt, s) ||
      (if s.left.None? && left.None? then true
       else if s.left.None? || left.None? then false
       else Same(lt, left.value, s.left.value) && leftIncl == s.leftIncl)
    }

    predicate EndsAfter(lt: (T, T) -> bool, s: RangeOver<T>) {
      if s.right.None? then right.None?
      else if right.None? || lt(s.right.value, right.value) then true
      else if lt(right.value, s.right.value) then false
      else rightIncl && !s.rightIncl
    }

    predicate EndsWithOrAfter(lt: (T, T) -> bool, s: RangeOver<T>) {
      EndsAfter(lt, s) ||
      (if s.right.None? && right.None? then true
       else if s.right.None? || right.None? then false
       else Same(lt, right.value, s.right.value) && rightIncl == s.rightIncl)
    }

    predicate Contains(lt: (T, T) -> bool, s: RangeOver<T>) {
      StartsWithOrBefore(lt, s) && EndsWithOrAfter(lt, s)
    }

    predicate IsUnbounded() {
      left.None? && right.None?
    }

    function DifferenceLeft(lt: (T, T) -> bool, s: RangeOver<T>): Option<RangeOver<T>> {
      if DisjointLeft(lt, s) then Some(this)
      else if s.left.Some? && StartsBefore(lt, s) then Some(RangeOver(left, leftIncl, s.left, !s.leftIncl))
      else None
    }

    function DifferenceRight(lt: (T, T) -> bool, s: RangeOver<T>): Option<RangeOver<T>> {
      if s.DisjointLeft(lt, this) then Some(this)
      else if s.right.Some? && EndsAfter(lt, s) then Some(RangeOver(s.right, !s.rightIncl, right, rightIncl))
      else None
    }

    function DiffWithRightResidual(lt: (T, T) -> bool, s: RangeOver<T>): (Option<RangeOver<T>>, Option<RangeOver<T>>) {
      if s.DisjointLeft(lt, this) then (None, None)
      else (if Contains(lt, s) then DifferenceLeft(lt, s) else None, DifferenceRight(lt, s))
    }

    function Extend(lt: (T, T) -> bool, s: RangeOver<T>): Option<RangeOver<T>>
      requires s.leftIncl || rightIncl ==> s.left.Some? && right.Some?
    {
      if (s.leftIncl || rightIncl) && Same(lt, s.left.value, right.value)
      then Some(RangeOver(left, leftIncl, s.right, s.rightIncl))
      else None
    }
  }

  ghost predicate MemberOf<T(!new)>(lt: (T, T) -> bool, rs: seq<RangeOver<T>>, x: T) {
    exists k :: 0 <= k < |rs| && rs[k].Has(lt, x)
  }

  ghost predicate Sorted<T>(lt: (T, T) -> bool, rs: seq<RangeOver<T>>) {
    && (forall k :: 0 <= k < |rs| ==> rs[k].Valid(lt))
    && forall i, j :: 0 <= i < j < |rs| ==> rs[i].DisjointLeft(lt, rs[j])
  }

  ghost predicate Canonical<T>(lt: (T, T) -> bool, rs: seq<RangeOver<T>>) {
    && (forall k :: 0 <= k < |rs| ==> rs[k].Valid(lt))
    && forall i, j :: 0 <= i < j < |rs| ==> rs[i].Separated(lt, rs[j])
  }

  // ----- positions: constants as numbers -----

  /** The numbers compare like the constants, wherever one of the two is among the end points. */
  ghost predicate Embeds<T(!new)>(lt: (T, T) -> bool, ends: set<T>, pos: T -> real) {
    forall s, t :: s in ends ==> (lt(s, t) <==> pos(s) < pos(t)) && (lt(t, s) <==> pos(t) < pos(s))
  }

  ghost function Below<T>(lt: (T, T) -> bool, ends: set<T>, t: T): set<T> {
    set s | s in ends && lt(s, t)
  }

  ghost function NotAbove<T>(lt: (T, T) -> bool, ends: set<T>, t: T): set<T> {
    set s | s in ends && !lt(t, s)
  }

  /** End points below count twice and equal ones once, so that a constant between two end points falls between. */
  ghost function Position<T>(lt: (T, T) -> bool, ends: set<T>, t: T): real {
    (|Below(lt, ends, t)| + |NotAbove(lt, ends, t)|) as real
  }

  lemma SubsetSize<T>(a: set<T>, b: set<T>)
    requires a <= b
    ensures |a| <= |b|
    ensures a != b ==> |a| < |b|
  {
    assert b == a + (b - a);
    if a != b {
      assert b - a != {};
    }
  }

  lemma PositionMonotone<T(!new)>(lt: (T, T) -> bool, ends: set<T>, s: T, t: T)
    requires Orders(lt) && !lt(t, s)
    ensures Position(lt, ends, s) <= Position(lt, ends, t)
    ensures lt(s, t) && (s in ends || t in ends) ==> Position(lt, ends, s) < Position(lt, ends, t)
  {
    assert Below(lt, ends, s) <= Below(lt, ends, t);
    assert NotAbove(lt, ends, s) <= NotAbove(lt, ends, t);
    SubsetSize(Below(lt, ends, s), Below(lt, ends, t));
    SubsetSize(NotAbove(lt, ends, s), NotAbove(lt, ends, t));
    if lt(s, t) && s in ends {
      assert s in Below(lt, ends, t) && s !in Below(lt, ends, s);
    }
    if lt(s, t) && t in ends {
      assert t in NotAbove(lt, ends, t) && t !in NotAbove(lt, ends, s);
    }
  }

  /** Any order looks, from finitely many end points, like a part of the real numbers. */
  lemma PositionsEmbed<T(!new)>(lt: (T, T) -> bool, ends: set<T>)
    requires Orders(lt)
    ensures Embeds(lt, ends, t => Position(lt, ends, t))
  {
    var pos := t => Position(lt, ends, t);
    forall s, t | s in ends
      ensures (lt(s, t) <==> pos(s) < pos(t)) && (lt(t, s) <==> pos(t) < pos(s))
    {
      if !lt(t, s) {
        PositionMonotone(lt, ends, s, t);
      }
      if !lt(s, t) {
        PositionMonotone(lt, ends, t, s);
      }
    }
  }

  // ----- images: ranges over numbers -----

  ghost function At<T>(pos: T -> real, end: Option<T>): Option<real> {
    if end.None? then None else Some(pos(end.value))
  }

  ghost function Image<T>(pos: T -> real, r: RangeOver<T>): Range {
    Range(At(pos, r.left), r.leftIncl, At(pos, r.right), r.rightIncl)
  }

  ghost function ImageOf<T>(pos: T -> real, r: Option<RangeOver<T>>): Option<Range> {
    if r.None? then None else Some(Image(pos, r.value))
  }

  ghost function Images<T>(pos: T -> real, rs: seq<RangeOver<T>>): (images: seq<Range>)
    ensures |images| == |rs| && forall k :: 0 <= k < |rs| ==> images[k] == Image(pos, rs[k])
  {
    seq(|rs|, k requires 0 <= k < |rs| => Image(pos, rs[k]))
  }

  ghost predicate EndsIn<T>(ends: set<T>, r: RangeOver<T>) {
    (r.left.Some? ==> r.left.value in ends) && (r.right.Some? ==> r.right.value in ends)
  }

  ghost predicate AllEndsIn<T>(ends: set<T>, rs: seq<RangeOver<T>>) {
    forall k :: 0 <= k < |rs| ==> EndsIn(ends, rs[k])
  }

  ghost function EndPoints<T>(rs: seq<RangeOver<T>>): (ends: set<T>)
    ensures AllEndsIn(ends, rs)
  {
    (set k | 0 <= k < |rs| && rs[k].left.Some? :: rs[k].left.value) +
    (set k | 0 <= k < |rs| && rs[k].right.Some? :: rs[k].right.value)
  }

  /** No test of end points tells constants from numbers. */
  lemma TestsAgree<T(!new)>(lt: (T, T) -> bool, ends: set<T>, pos: T -> real, r: RangeOver<T>, s: RangeOver<T>)
    requires Embeds(lt, ends, pos) && EndsIn(ends, r) && EndsIn(ends, s)
    ensures r.Valid(lt) <==> Image(pos, r).Valid()
    ensures r.DisjointLeft(lt, s) <==> Image(pos, r).DisjointLeft(Image(pos, s))
    ensures r.Separated(lt, s) <==> Image(pos, r).Separated(Image(pos, s))
    ensures r.StartsBefore(lt, s) <==> Image(pos, r).StartsBefore(Image(pos, s))
    ensures r.EndsAfter(lt, s) <==> Image(pos, r).EndsAfter(Image(pos, s))
    ensures r.EndsWithOrAfter(lt, s) <==> Image(pos, r).EndsWithOrAfter(Image(pos, s))
    ensures r.Contains(lt, s) <==> Image(pos, r).Contains(Image(pos, s))
  {
  }

  /** Neither does membership. */
  lemma HasAgrees<T(!new)>(lt: (T, T) -> bool, ends: set<T>, pos: T -> real, r: RangeOver<T>, x: T)
    requires Embeds(lt, ends, pos) && EndsIn(ends, r)
    ensures r.Has(lt, x) <==> Image(pos, r).Has(pos(x))
  {
  }

  /** The operations on ranges commute with taking images, and make no new end points. */
  lemma DifferencesAgree<T(!new)>(lt: (T, T) -> bool, ends: set<T>, pos: T -> real, r: RangeOver<T>, s: RangeOver<T>)
    requires Embeds(lt, ends, pos) && EndsIn(ends, r) && EndsIn(ends, s)
    requires Image(pos, r).Valid() && Image(pos, s).Valid()
    ensures ImageOf(pos, r.DifferenceLeft(lt, s)) == Image(pos, r).DifferenceLeft(Image(pos, s))
    ensures ImageOf(pos, r.DifferenceRight(lt, s)) == Image(pos, r).DifferenceRight(Image(pos, s))
    ensures r.DifferenceLeft(lt, s).Some? ==> EndsIn(ends, r.DifferenceLeft(lt, s).value)
    ensures r.DifferenceRight(lt, s).Some? ==> EndsIn(ends, r.DifferenceRight(lt, s).value)
  {
    TestsAgree(lt, ends, pos, r, s);
    TestsAgree(lt, ends, pos, s, r);
  }

  lemma ResidualAgrees<T(!new)>(lt: (T, T) -> bool, ends: set<T>, pos: T -> real, r: RangeOver<T>, s: RangeOver<T>)
    requires Embeds(lt, ends, pos) && EndsIn(ends, r) && EndsIn(ends, s)
    requires Image(pos, r).Valid() && Image(pos, s).Valid()
    ensures var (piece, rest) := r.DiffWithRightResidual(lt, s);
            && (ImageOf(pos, piece), ImageOf(pos, rest)) == Sweeps.DiffWithRightResidual(Image(pos, r), Image(pos, s))
            && (piece.Some? ==> EndsIn(ends, piece.value)) && (rest.Some? ==> EndsIn(ends, rest.value))
  {
    TestsAgree(lt, ends, pos, r, s);
    TestsAgree(lt, ends, pos, s, r);
    DifferencesAgree(lt, ends, pos, r, s);
  }

  lemma SortedAgrees<T(!new)>(lt: (T, T) -> bool, ends: set<T>, pos: T -> real, rs: seq<RangeOver<T>>)
    requires Embeds(lt, ends, pos) && AllEndsIn(ends, rs)
    ensures Sorted(lt, rs) <==> SortedList(Images(pos, rs))
    ensures Canonical(lt, rs) <==> CanonicalList(Images(pos, rs))
  {
    forall i, j | 0 <= i < |rs| && 0 <= j < |rs|
      ensures rs[i].Valid(lt) <==> Images(pos, rs)[i].Valid()
      ensures rs[i].DisjointLeft(lt, rs[j]) <==> Images(pos, rs)[i].DisjointLeft(Images(pos, rs)[j])
      ensures rs[i].Separated(lt, rs[j]) <==> Images(pos, rs)[i].Separated(Images(pos, rs)[j])
    {
      TestsAgree(lt, ends, pos, rs[i], rs[j]);
    }
  }

  lemma MemberAgrees<T(!new)>(lt: (T, T) -> bool, ends: set<T>, pos: T -> real, rs: seq<RangeOver<T>>, x: T)
    requires Embeds(lt, ends, pos) && AllEndsIn(ends, rs)
    ensures MemberOf(lt, rs, x) <==> Member(Images(pos, rs), pos(x))
  {
    forall k | 0 <= k < |rs|
      ensures rs[k].Has(lt, x) <==> Images(pos, rs)[k].Has(pos(x))
    {
      HasAgrees(lt, ends, pos, rs[k], x);
    }
  }

  // ----- the sweep -----

  /** A piece that can be appended: its end points are known, and it is to the right of the output. */
  ghost predicate Appendable<T>(ends: set<T>, pos: T -> real, dest: seq<RangeOver<T>>, range: Option<RangeOver<T>>) {
    range.Some? ==> EndsIn(ends, range.value)
                    && Image(pos, range.value).Valid() && AllLeftOf(Images(pos, dest), Image(pos, range.value))
  }

  /** The test for merging is about end points, too. */
  lemma ExtendAgrees<T(!new)>(lt: (T, T) -> bool, ends: set<T>, pos: T -> real, last: RangeOver<T>, range: RangeOver<T>)
    requires Embeds(lt, ends, pos) && EndsIn(ends, last) && EndsIn(ends, range)
    requires Image(pos, last).Valid() && Image(pos, range).Valid()
    requires Image(pos, last).DisjointLeft(Image(pos, range))
    ensures last.right.Some? && range.left.Some?
    ensures ImageOf(pos, last.Extend(lt, range)) == Image(pos, last).Extend(Image(pos, range))
    ensures last.Extend(lt, range).Some? ==> EndsIn(ends, last.Extend(lt, range).value)
  {
  }

  lemma AppendedBehind<T>(pos: T -> real, dest: seq<RangeOver<T>>, range: RangeOver<T>)
    requires CanonicalList(Images(pos, dest)) && Image(pos, range).Valid() && AllLeftOf(Images(pos, dest), Image(pos, range))
    requires |dest| == 0 || Image(pos, dest[|dest| - 1]).Extend(Image(pos, range)).None?
    ensures Sweeps.Appended(Images(pos, dest), ImageOf(pos, Some(range)), Images(pos, dest + [range]))
  {
    Sweeps.AppendedBehind(Images(pos, dest), Image(pos, range));
    assert Images(pos, dest + [range]) == Images(pos, dest) + [Image(pos, range)];
  }

  lemma AppendedMerged<T>(pos: T -> real, dest: seq<RangeOver<T>>, range: RangeOver<T>, merged: RangeOver<T>)
    requires CanonicalList(Images(pos, dest)) && Image(pos, range).Valid() && AllLeftOf(Images(pos, dest), Image(pos, range))
    requires |dest| > 0 && Image(pos, dest[|dest| - 1]).Extend(Image(pos, range)) == Some(Image(pos, merged))
    ensures Sweeps.Appended(Images(pos, dest), ImageOf(pos, Some(range)), Images(pos, dest[..|dest| - 1] + [merged]))
  {
    Sweeps.AppendedMerged(Images(pos, dest), Image(pos, range));
    assert Images(pos, dest[..|dest| - 1] + [merged]) == Images(pos, dest)[..|dest| - 1] + [Image(pos, merged)];
  }

  method AppendOrExtend<T(==, !new)>(lt: (T, T) -> bool, dest: seq<RangeOver<T>>, range: Option<RangeOver<T>>,
                                     ghost ends: set<T>, ghost pos: T -> real)
    returns (result: seq<RangeOver<T>>)
    requires Embeds(lt, ends, pos) && AllEndsIn(ends, dest) && CanonicalList(Images(pos, dest))
    requires Appendable(ends, pos, dest, range)
    ensures AllEndsIn(ends, result)
    ensures Sweeps.Appended(Images(pos, dest), ImageOf(pos, range), Images(pos, result))
  {
    if range.None? {
      return dest;
    }
    if |dest| == 0 {
      AppendedBehind(pos, dest, range.value);
      return dest + [range.value];
    }
    assert Images(pos, dest)[|dest| - 1].Valid();
    ExtendAgrees(lt, ends, pos, dest[|dest| - 1], range.value);
    var extended := dest[|dest| - 1].Extend(lt, range.value);
    if extended.None? {
      AppendedBehind(pos, dest, range.value);
      result := dest + [range.value];
    } else {
      AppendedMerged(pos, dest, range.value, extended.value);
      result := dest[..|dest| - 1] + [extended.value];
    }
  }

  /** The invariant of adding remaining ranges, again on the images. */
  ghost predicate RemainingState<T>(ends: set<T>, pos: T -> real, src: seq<RangeOver<T>>, start: nat, i: nat,
                                    dest: seq<RangeOver<T>>, result: seq<RangeOver<T>>) {
    && i <= |src| && AllEndsIn(ends, src) && AllEndsIn(ends, result) && SortedList(Images(pos, src))
    && Sweeps.RemainingState(Images(pos, src), start, i, Images(pos, dest), Images(pos, result))
  }

  lemma RemainingReady<T>(ends: set<T>, pos: T -> real, src: seq<RangeOver<T>>, start: nat, i: nat,
                          dest: seq<RangeOver<T>>, result: seq<RangeOver<T>>)
    requires RemainingState(ends, pos, src, start, i, dest, result) && i < |src|
    ensures Appendable(ends, pos, result, Some(src[i])) && CanonicalList(Images(pos, result))
  {
    assert Images(pos, src)[i].Valid() && AllLeftOf(Images(pos, result), Images(pos, src)[i]);
  }

  lemma RemainingStep<T>(ends: set<T>, pos: T -> real, src: seq<RangeOver<T>>, start: nat, i: nat,
                         dest: seq<RangeOver<T>>, before: seq<RangeOver<T>>, result: seq<RangeOver<T>>)
    requires RemainingState(ends, pos, src, start, i, dest, before) && i < |src| && AllEndsIn(ends, result)
    requires Sweeps.Appended(Images(pos, before), ImageOf(pos, Some(src[i])), Images(pos, result))
    ensures RemainingState(ends, pos, src, start, i + 1, dest, result)
  {
    Sweeps.RemainingStep(Images(pos, src), start, i, Images(pos, dest), Images(pos, before), Images(pos, result));
  }

  method AddNextRange<T(==, !new)>(lt: (T, T) -> bool, src: seq<RangeOver<T>>, i: nat, before: seq<RangeOver<T>>,
                                   ghost start: nat, ghost dest: seq<RangeOver<T>>, ghost ends: set<T>, ghost pos: T -> real)
    returns (result: seq<RangeOver<T>>)
    requires Embeds(lt, ends, pos) && RemainingState(ends, pos, src, start, i, dest, before) && i < |src|
    ensures RemainingState(ends, pos, src, start, i + 1, dest, result)
  {
    RemainingReady(ends, pos, src, start, i, dest, before);
    result := AppendOrExtend(lt, before, Some(src[i]), ends, pos);
    RemainingStep(ends, pos, src, start, i, dest, before, result);
  }

  method AddRemainingRanges<T(==, !new)>(lt: (T, T) -> bool, src: seq<RangeOver<T>>, start: nat, dest: seq<RangeOver<T>>,
                                         ghost ends: set<T>, ghost pos: T -> real)
    returns (result: seq<RangeOver<T>>)
    requires Embeds(lt, ends, pos) && RemainingState(ends, pos, src, start, start, dest, dest)
    ensures RemainingState(ends, pos, src, start, |src|, dest, result)
  {
    result := dest;
    var i := start;
    while i < |src|
      invariant RemainingState(ends, pos, src, start, i, dest, result)
    {
      result := AddNextRange(lt, src, i, result, start, dest, ends, pos);
      i := i + 1;
    }
  }

  function Current<T>(a: seq<RangeOver<T>>, i: nat, residual: Option<RangeOver<T>>): RangeOver<T>
    requires i < |a|
  {
    if residual.None? then a[i] else residual.value
  }

  /** The invariant of the sweep is that of the sweep over numbers, on the images. */
  ghost predicate DifferenceState<T>(ends: set<T>, pos: T -> real, a: seq<RangeOver<T>>, i: nat, b: seq<RangeOver<T>>, j: nat,
                                     residual: Option<RangeOver<T>>, out: seq<RangeOver<T>>) {
    && i <= |a| && j <= |b|
    && AllEndsIn(ends, a) && AllEndsIn(ends, b) && AllEndsIn(ends, out) && (residual.Some? ==> EndsIn(ends, residual.value))
    && SortedList(Images(pos, a)) && SortedList(Images(pos, b))
    && Sweeps.DifferenceState(Images(pos, a), i, Images(pos, b), j, ImageOf(pos, residual), Images(pos, out))
  }

  /** The current range and its one-sided differences can be appended, and the images are those of the sweep over numbers. */
  lemma StepReady<T(!new)>(lt: (T, T) -> bool, ends: set<T>, pos: T -> real, a: seq<RangeOver<T>>, i: nat,
                           b: seq<RangeOver<T>>, j: nat, residual: Option<RangeOver<T>>, out: seq<RangeOver<T>>)
    requires Embeds(lt, ends, pos) && i < |a| && j < |b| && DifferenceState(ends, pos, a, i, b, j, residual, out)
    ensures Image(pos, Current(a, i, residual)) == Sweeps.Current(Images(pos, a), i, ImageOf(pos, residual))
    ensures EndsIn(ends, Current(a, i, residual)) && Image(pos, Current(a, i, residual)).Valid()
    ensures EndsIn(ends, b[j]) && Image(pos, b[j]).Valid()
    ensures Appendable(ends, pos, out, Current(a, i, residual).DifferenceLeft(lt, b[j]))
    ensures Appendable(ends, pos, out, Current(a, i, residual).DiffWithRightResidual(lt, b[j]).0)
  {
    var cur, other := Current(a, i, residual), b[j];
    assert Images(pos, a)[i].Valid() && Images(pos, b)[j].Valid();
    DifferencesAgree(lt, ends, pos, cur, other);
  }

  lemma StepConsumes<T(!new)>(lt: (T, T) -> bool, ends: set<T>, pos: T -> real, a: seq<RangeOver<T>>, i: nat,
                              b: seq<RangeOver<T>>, j: nat, residual: Option<RangeOver<T>>,
                              before: seq<RangeOver<T>>, out: seq<RangeOver<T>>)
    requires Embeds(lt, ends, pos) && i < |a| && j < |b| && DifferenceState(ends, pos, a, i, b, j, residual, before)
    requires b[j].EndsWithOrAfter(lt, Current(a, i, residual)) && AllEndsIn(ends, out)
    requires Sweeps.Appended(Images(pos, before), ImageOf(pos, Current(a, i, residual).DifferenceLeft(lt, b[j])), Images(pos, out))
    ensures DifferenceState(ends, pos, a, i + 1, b, j, None, out)
  {
    var cur, other := Current(a, i, residual), b[j];
    StepReady(lt, ends, pos, a, i, b, j, residual, before);
    TestsAgree(lt, ends, pos, other, cur);
    DifferencesAgree(lt, ends, pos, cur, other);
    Sweeps.DifferenceConsume(Images(pos, a), i, Images(pos, b), j, ImageOf(pos, residual), Images(pos, before), Images(pos, out));
  }

  lemma StepPasses<T(!new)>(lt: (T, T) -> bool, ends: set<T>, pos: T -> real, a: seq<RangeOver<T>>, i: nat,
                            b: seq<RangeOver<T>>, j: nat, residual: Option<RangeOver<T>>,
                            before: seq<RangeOver<T>>, out: seq<RangeOver<T>>)
    requires Embeds(lt, ends, pos) && i < |a| && j < |b| && DifferenceState(ends, pos, a, i, b, j, residual, before)
    requires !b[j].EndsWithOrAfter(lt, Current(a, i, residual)) && AllEndsIn(ends, out)
    requires Sweeps.Appended(Images(pos, before), ImageOf(pos, Current(a, i, residual).DiffWithRightResidual(lt, b[j]).0), Images(pos, out))
    ensures DifferenceState(ends, pos, a, i, b, j + 1, Current(a, i, residual).DiffWithRightResidual(lt, b[j]).1, out)
  {
    var cur, other := Current(a, i, residual), b[j];
    StepReady(lt, ends, pos, a, i, b, j, residual, before);
    TestsAgree(lt, ends, pos, other, cur);
    ResidualAgrees(lt, ends, pos, cur, other);
    if cur.DiffWithRightResidual(lt, other).1.None? {
      Sweeps.DifferenceSkip(Images(pos, a), i, Images(pos, b), j, ImageOf(pos, residual), Images(pos, before));
    } else {
      Sweeps.DifferenceCut(Images(pos, a), i, Images(pos, b), j, ImageOf(pos, residual), Images(pos, before), Images(pos, out));
    }
  }

  /** The images of the output are the difference of the images. */
  ghost predicate ImageDifference<T>(pos: T -> real, out: seq<RangeOver<T>>, a: seq<RangeOver<T>>, b: seq<RangeOver<T>>) {
    forall y :: Member(Images(pos, out), y) <==> Member(Images(pos, a), y) && !Member(Images(pos, b), y)
  }

  lemma SweepStarts<T>(ends: set<T>, pos: T -> real, a: seq<RangeOver<T>>, b: seq<RangeOver<T>>)
    requires AllEndsIn(ends, a) && AllEndsIn(ends, b) && SortedList(Images(pos, a)) && SortedList(Images(pos, b))
    ensures DifferenceState(ends, pos, a, 0, b, 0, None, [])
  {
  }

  /** When the sweep ends, its residual can be appended. */
  lemma ResidualReady<T>(ends: set<T>, pos: T -> real, a: seq<RangeOver<T>>, i: nat, b: seq<RangeOver<T>>, j: nat,
                         residual: Option<RangeOver<T>>, out: seq<RangeOver<T>>)
    requires DifferenceState(ends, pos, a, i, b, j, residual, out)
    ensures Appendable(ends, pos, out, residual) && CanonicalList(Images(pos, out)) && AllEndsIn(ends, out)
    ensures residual.Some? ==> i < |a|
  {
  }

  /** Then the remaining ranges can be added, */
  lemma RestReady<T>(ends: set<T>, pos: T -> real, a: seq<RangeOver<T>>, i: nat, b: seq<RangeOver<T>>, j: nat,
                     residual: Option<RangeOver<T>>, before: seq<RangeOver<T>>, middle: seq<RangeOver<T>>, next: nat)
    requires DifferenceState(ends, pos, a, i, b, j, residual, before) && (i == |a| || j == |b|)
    requires Sweeps.Appended(Images(pos, before), ImageOf(pos, residual), Images(pos, middle)) && AllEndsIn(ends, middle)
    requires next == if residual.Some? then i + 1 else i
    ensures RemainingState(ends, pos, a, next, next, middle, middle)
  {
    Sweeps.DifferenceReady(Images(pos, a), i, Images(pos, b), j, ImageOf(pos, residual), Images(pos, before), Images(pos, middle), next);
  }

  /** and adding them gives the difference. */
  lemma SweepDone<T>(ends: set<T>, pos: T -> real, a: seq<RangeOver<T>>, i: nat, b: seq<RangeOver<T>>, j: nat,
                     residual: Option<RangeOver<T>>, before: seq<RangeOver<T>>, middle: seq<RangeOver<T>>, next: nat,
                     out: seq<RangeOver<T>>)
    requires DifferenceState(ends, pos, a, i, b, j, residual, before) && (i == |a| || j == |b|)
    requires Sweeps.Appended(Images(pos, before), ImageOf(pos, residual), Images(pos, middle)) && AllEndsIn(ends, middle)
    requires next == if residual.Some? then i + 1 else i
    requires RemainingState(ends, pos, a, next, |a|, middle, out)
    ensures ImageDifference(pos, out, a, b) && CanonicalList(Images(pos, out)) && AllEndsIn(ends, out)
  {
    var ia, ib := Images(pos, a), Images(pos, b);
    Sweeps.DifferenceDone(ia, i, ib, j, ImageOf(pos, residual), Images(pos, before), Images(pos, middle), next);
    assert ia[next..|a|] == ia[next..];
  }

  method SweepDifference<T(==, !new)>(lt: (T, T) -> bool, a: seq<RangeOver<T>>, b: seq<RangeOver<T>>,
                                  ghost ends: set<T>, ghost pos: T -> real)
    returns (out: seq<RangeOver<T>>)
    requires Embeds(lt, ends, pos) && AllEndsIn(ends, a) && AllEndsIn(ends, b)
    requires SortedList(Images(pos, a)) && SortedList(Images(pos, b))
    ensures AllEndsIn(ends, out) && CanonicalList(Images(pos, out))
    ensures ImageDifference(pos, out, a, b)
  {
    out := [];
    var i, j := 0, 0;
    var residual: Option<RangeOver<T>> := None;
    SweepStarts(ends, pos, a, b);
    while i < |a| && j < |b|
      invariant DifferenceState(ends, pos, a, i, b, j, residual, out)
      decreases |a| - i + |b| - j
    {
      var thisRange, otherRange := Current(a, i, residual), b[j];
      ghost var before := out;
      StepReady(lt, ends, pos, a, i, b, j, residual, out);
      if otherRange.EndsWithOrAfter(lt, thisRange) {
        out := AppendOrExtend(lt, out, thisRange.DifferenceLeft(lt, otherRange), ends, pos);
        StepConsumes(lt, ends, pos, a, i, b, j, residual, before, out);
        residual := None;
        i := i + 1;
      } else {
        var (piece, rest) := thisRange.DiffWithRightResidual(lt, otherRange);
        out := AppendOrExtend(lt, out, piece, ends, pos);
        StepPasses(lt, ends, pos, a, i, b, j, residual, before, out);
        residual := rest;
        j := j + 1;
      }
    }
    ghost var before, first := out, i;
    ResidualReady(ends, pos, a, i, b, j, residual, out);
    if residual.Some? {
      i := i + 1;
    }
    out := AppendOrExtend(lt, out, residual, ends, pos);
    ghost var middle := out;
    RestReady(ends, pos, a, first, b, j, residual, before, middle, i);
    out := AddRemainingRanges(lt, a, i, out, ends, pos);
    SweepDone(ends, pos, a, first, b, j, residual, before, middle, i, out);
  }

  // ----- difference and containment -----

  /** Positions with respect to the end points of two lists. */
  ghost function PositionIn<T>(lt: (T, T) -> bool, a: seq<RangeOver<T>>, b: seq<RangeOver<T>>): T -> real {
    t => Position(lt, EndPoints(a) + EndPoints(b), t)
  }

  /** Exact difference, for every comparator that orders the constants. */
  method DifferenceRanges<T(==, !new)>(lt: (T, T) -> bool, a: seq<RangeOver<T>>, b: seq<RangeOver<T>>)
    returns (out: seq<RangeOver<T>>)
    requires Orders(lt) && Sorted(lt, a) && Sorted(lt, b)
    ensures Canonical(lt, out)
    ensures forall x :: MemberOf(lt, out, x) <==> MemberOf(lt, a, x) && !MemberOf(lt, b, x)
    ensures out == [] <==> Fits(lt, a, b)
  {
    ghost var ends, pos := EndPoints(a) + EndPoints(b), PositionIn(lt, a, b);
    PositionsEmbed(lt, ends);
    SortedAgrees(lt, ends, pos, a);
    SortedAgrees(lt, ends, pos, b);
    out := SweepDifference(lt, a, b, ends, pos);
    SortedAgrees(lt, ends, pos, out);
    forall x
      ensures MemberOf(lt, out, x) <==> MemberOf(lt, a, x) && !MemberOf(lt, b, x)
    {
      MemberAgrees(lt, ends, pos, a, x);
      MemberAgrees(lt, ends, pos, b, x);
      MemberAgrees(lt, ends, pos, out, x);
    }
    if out != [] {
      assert Images(pos, out)[0].Has(Images(pos, out)[0].Point());
      assert Member(Images(pos, out), Images(pos, out)[0].Point());
    }
  }

  /** The first list is within the second once every gap between end points is filled with a constant. */
  ghost predicate Fits<T(!new)>(lt: (T, T) -> bool, a: seq<RangeOver<T>>, b: seq<RangeOver<T>>) {
    var pos := PositionIn(lt, a, b);
    forall y :: Member(Images(pos, a), y) ==> Member(Images(pos, b), y)
  }

  /** Every constant of the first list is in the second. */
  ghost predicate Within<T(!new)>(lt: (T, T) -> bool, a: seq<RangeOver<T>>, b: seq<RangeOver<T>>) {
    forall x :: MemberOf(lt, a, x) ==> MemberOf(lt, b, x)
  }

  /** In a dense order every valid range holds a constant. */
  lemma DenseHolds<T(!new)>(lt: (T, T) -> bool, r: RangeOver<T>) returns (x: T)
    requires Orders(lt) && Dense(lt) && r.Valid(lt)
    ensures r.Has(lt, x)
  {
    if r.left.Some? && r.right.Some? {
      if lt(r.left.value, r.right.value) {
        assert HasBetween(lt, r.left.value, r.right.value);
        x :| lt(r.left.value, x) && lt(x, r.right.value);
      } else {
        x := r.left.value;
      }
    } else if r.left.Some? {
      assert HasAbove(lt, r.left.value);
      x :| lt(r.left.value, x);
    } else if r.right.Some? {
      assert HasBelow(lt, r.right.value);
      x :| lt(x, r.right.value);
    } else {
      x :| HasAbove(lt, x);
    }
  }

  datatype IntervalOver<T> = IntervalOver(ranges: seq<RangeOver<T>>, nulls: bool) {
    predicate IsUnbounded() {
      nulls && |ranges| == 1 && ranges[0].IsUnbounded()
    }
  }

  /**
    Does `outer` contain `inner`? Yes means inclusion in every order; inclusion means yes in every
    dense order, and in any order exactly if it still holds when the gaps are filled. In all cases an
    unbounded `inner` is only found in an `outer` that is unbounded in shape.
   */
  method ContainsInterval<T(==, !new)>(lt: (T, T) -> bool, outer: IntervalOver<T>, inner: IntervalOver<T>) returns (contains: bool)
    requires Orders(lt) && Sorted(lt, outer.ranges) && Sorted(lt, inner.ranges)
    ensures contains ==> Within(lt, inner.ranges, outer.ranges) && (inner.nulls ==> outer.nulls)
    ensures contains <==> Fits(lt, inner.ranges, outer.ranges) && (inner.nulls ==> outer.nulls)
                          && (inner.IsUnbounded() ==> outer.IsUnbounded())
    ensures Dense(lt) ==> (contains <==> Within(lt, inner.ranges, outer.ranges) && (inner.nulls ==> outer.nulls)
                                         && (inner.IsUnbounded() ==> outer.IsUnbounded()))
  {
    if outer.IsUnbounded() {
      UnboundedFits(lt, outer, inner);
      return true;
    }
    if inner.IsUnbounded() || (!outer.nulls && inner.nulls) {
      return false;
    }
    var diff := DifferenceRanges(lt, inner.ranges, outer.ranges);
    contains := |diff| == 0;
    if Dense(lt) && diff != [] {
      var x := DenseHolds(lt, diff[0]);
      assert MemberOf(lt, diff, x);
    }
  }

  lemma UnboundedFits<T(!new)>(lt: (T, T) -> bool, outer: IntervalOver<T>, inner: IntervalOver<T>)
    requires outer.IsUnbounded()
    ensures Fits(lt, inner.ranges, outer.ranges) && Within(lt, inner.ranges, outer.ranges)
  {
    var pos := PositionIn(lt, inner.ranges, outer.ranges);
    assert forall y :: Images(pos, outer.ranges)[0].Has(y);
    assert forall x :: outer.ranges[0].Has(lt, x);
  }

  // ----- two comparators -----

  predicate RealLess(x: real, y: real) {
    x < y
  }

  predicate IntegerLess(x: int, y: int) {
    x < y
  }

  lemma RealsAreOrdered()
    ensures Orders(RealLess)
  {
  }

  lemma RealsBetweenAndBeyond(x: real, y: real)
    ensures HasBetween(RealLess, x, y) && HasAbove(RealLess, x) && HasBelow(RealLess, x)
  {
    if RealLess(x, y) {
      assert RealLess(x, (x + y) / 2.0) && RealLess((x + y) / 2.0, y);
    }
    assert RealLess(x, x + 1.0) && RealLess(x - 1.0, x);
  }

  /** The real numbers, in terms of which the other modules are stated, are one such order, and dense. */
  lemma RealsAreDense()
    ensures Orders(RealLess) && Dense(RealLess)
  {
    RealsAreOrdered();
    forall x, y
      ensures HasBetween(RealLess, x, y)
    {
      RealsBetweenAndBeyond(x, y);
    }
    forall x
      ensures HasAbove(RealLess, x) && HasBelow(RealLess, x)
    {
      RealsBetweenAndBeyond(x, x);
    }
    assert HasAbove(RealLess, 0.0);
  }

  lemma IntegersAreOrdered()
    ensures Orders(IntegerLess)
  {
  }

  /** The integers 1 and 2 as two ranges, and as one. */
  const ONE_AND_TWO := [RangeOver(Some(1), true, Some(1), true), RangeOver(Some(2), true, Some(2), true)]
  const ONE_TO_TWO := [RangeOver(Some(1), true, Some(2), true)]

  lemma OneToTwoWithin()
    ensures Canonical(IntegerLess, ONE_AND_TWO) && Canonical(IntegerLess, ONE_TO_TWO)
    ensures Within(IntegerLess, ONE_TO_TWO, ONE_AND_TWO)
  {
    forall x | MemberOf(IntegerLess, ONE_TO_TWO, x)
      ensures MemberOf(IntegerLess, ONE_AND_TWO, x)
    {
      assert ONE_AND_TWO[0].Has(IntegerLess, x) || ONE_AND_TWO[1].Has(IntegerLess, x);
    }
  }

  lemma OneToTwoDoesNotFit(pos: int -> real)
    requires pos(1) < pos(2)
    ensures !forall y :: Member(Images(pos, ONE_TO_TWO), y) ==> Member(Images(pos, ONE_AND_TWO), y)
  {
    var y := (pos(1) + pos(2)) / 2.0;
    assert Images(pos, ONE_TO_TWO)[0].Has(y);
    assert Member(Images(pos, ONE_TO_TWO), y);
    var two := Images(pos, ONE_AND_TWO);
    assert !two[0].Has(y) && !two[1].Has(y);
    assert !Member(two, y);
  }

  /** The integers are an order in which containment is incomplete: [1, 2] is within {1, 2}, and the answer is no. */
  lemma IncompleteOnIntegers()
    ensures Orders(IntegerLess) && Canonical(IntegerLess, ONE_AND_TWO) && Canonical(IntegerLess, ONE_TO_TWO)
    ensures Within(IntegerLess, ONE_TO_TWO, ONE_AND_TWO) && !Fits(IntegerLess, ONE_TO_TWO, ONE_AND_TWO)
  {
    IntegersAreOrdered();
    OneToTwoWithin();
    var pos := PositionIn(IntegerLess, ONE_TO_TWO, ONE_AND_TWO);
    assert pos(1) < pos(2) by {
      var ends := EndPoints(ONE_TO_TWO) + EndPoints(ONE_AND_TWO);
      assert EndsIn(ends, ONE_TO_TWO[0]);
      PositionMonotone(IntegerLess, ends, 1, 2);
    }
    OneToTwoDoesNotFit(pos);
  }
}
