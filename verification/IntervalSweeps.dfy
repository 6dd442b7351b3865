/**
  The algorithms of CConstraintInterval: two-pointer sweeps over sorted range lists for
  intersection, union and difference, the merge-on-append step that they share, and what is
  built from them (complement, containment, the pairwise reduction of a list of unions).
 */
module IntervalSweeps {
  import opened Options
  import opened Ranges
  import opened Intervals

  /** `r` ends where the last range of the list ends, if there is one. */
  ghost predicate EndsList(rs: seq<Range>, r: Range) {
    |rs| > 0 && rs[|rs| - 1].right == r.right && rs[|rs| - 1].rightIncl == r.rightIncl
  }

  /** A range to the right of the last range of a sorted list is to the right of all of them. */
  lemma AllLeftOfFromLast(rs: seq<Range>, r: Range)
    requires SortedList(rs) && r.Valid()
    requires |rs| == 0 || rs[|rs| - 1].DisjointLeft(r)
    ensures AllLeftOf(rs, r)
  {
  }

  lemma AllLeftOfTransitive(rs: seq<Range>, r: Range, s: Range)
    requires AllLeftOf(rs, r) && r.Valid() && r.DisjointLeft(s)
    ensures AllLeftOf(rs, s)
  {
  }

  /** `result` is canonical, holds the points of `dest` and of `range`, and ends where `range` does. */
  ghost predicate Appended(dest: seq<Range>, range: Option<Range>, result: seq<Range>) {
    && CanonicalList(result)
    && (range.None? ==> result == dest)
    && (range.Some? ==> EndsList(result, range.value))
    && forall x :: Member(result, x) <==> Member(dest, x) || (range.Some? && range.value.Has(x))
  }

  /** A range that the last one does not merge with is put behind it. */
  lemma AppendedBehind(dest: seq<Range>, range: Range)
    requires CanonicalList(dest) && range.Valid() && AllLeftOf(dest, range)
    requires |dest| == 0 || dest[|dest| - 1].Extend(range).None?
    ensures Appended(dest, Some(range), dest + [range])
  {
    MemberAppend(dest, range);
  }

  /** Otherwise the merged range takes the place of the last one. */
  lemma AppendedMerged(dest: seq<Range>, range: Range)
    requires CanonicalList(dest) && range.Valid() && AllLeftOf(dest, range)
    requires |dest| > 0 && dest[|dest| - 1].Extend(range).Some?
    ensures Appended(dest, Some(range), dest[..|dest| - 1] + [dest[|dest| - 1].Extend(range).value])
  {
    MemberTake(dest, |dest| - 1);
    assert dest[..|dest|] == dest;
    MemberAppend(dest[..|dest| - 1], dest[|dest| - 1].Extend(range).value);
  }

  /** Appends a range to a canonical list, merging it with the last range if they touch. */
  method AppendOrExtend(dest: seq<Range>, range: Option<Range>) returns (result: seq<Range>)
    requires CanonicalList(dest)
    requires range.Some? ==> range.value.Valid() && AllLeftOf(dest, range.value)
    ensures Appended(dest, range, result)
  {
    if range.None? {
      return dest;
    }
    if |dest| == 0 {
      AppendedBehind(dest, range.value);
      return dest + [range.value];
    }
    var extended := dest[|dest| - 1].Extend(range.value);
    if extended.None? {
      AppendedBehind(dest, range.value);
      result := dest + [range.value];
    } else {
      AppendedMerged(dest, range.value);
      result := dest[..|dest| - 1] + [extended.value];
    }
  }

  /** The invariant of adding remaining ranges: those from `start` to `i` have been added to `dest`. */
  ghost predicate RemainingState(src: seq<Range>, start: nat, i: nat, dest: seq<Range>, result: seq<Range>) {
    && start <= i <= |src|
    && CanonicalList(result)
    && (i == start ==> result == dest)
    && (forall k :: i <= k < |src| ==> AllLeftOf(result, src[k]))
    && forall x :: Member(result, x) <==> Member(dest, x) || Member(src[start..i], x)
  }

  lemma RemainingStep(src: seq<Range>, start: nat, i: nat, dest: seq<Range>, before: seq<Range>, result: seq<Range>)
    requires SortedList(src) && RemainingState(src, start, i, dest, before) && i < |src|
    requires Appended(before, Some(src[i]), result)
    ensures RemainingState(src, start, i + 1, dest, result)
  {
    assert src[start..i + 1] == src[start..i] + [src[i]];
    MemberAppend(src[start..i], src[i]);
    forall k | i < k < |src|
      ensures AllLeftOf(result, src[k])
    {
      AllLeftOfFromLast(result, src[k]);
    }
  }

  /** Adds the ranges of `src` from `start` on to a canonical list that lies to their left. */
  method AddRemainingRanges(src: seq<Range>, start: nat, dest: seq<Range>) returns (result: seq<Range>)
    requires SortedList(src) && start <= |src|
    requires CanonicalList(dest)
    requires forall k :: start <= k < |src| ==> AllLeftOf(dest, src[k])
    ensures CanonicalList(result)
    ensures start == |src| ==> result == dest
    ensures forall x :: Member(result, x) <==> Member(dest, x) || Member(src[start..], x)
  {
    result := dest;
    var i := start;
    while i < |src|
      invariant RemainingState(src, start, i, dest, result)
    {
      ghost var before := result;
      result := AppendOrExtend(result, Some(src[i]));
      RemainingStep(src, start, i, dest, before, result);
      i := i + 1;
    }
    assert src[start..i] == src[start..];
  }

  // ----- intersection -----

  /** The two forms of "to the left of": with room for a point in between, or without overlap. */
  ghost predicate Apart(strict: bool, r: Range, s: Range) {
    if strict then r.Separated(s) else r.DisjointLeft(s)
  }

  ghost predicate Ordered(strict: bool, rs: seq<Range>) {
    AllValid(rs) && forall i, j :: 0 <= i < j < |rs| ==> Apart(strict, rs[i], rs[j])
  }

  /** Every range found so far is left of one of the two ranges under examination. */
  ghost predicate Behind(strict: bool, out: seq<Range>, a: seq<Range>, i: nat, b: seq<Range>, j: nat) {
    forall k :: 0 <= k < |out| ==>
      (i < |a| ==> Apart(strict, out[k], a[i])) || (j < |b| ==> Apart(strict, out[k], b[j]))
  }

  /** Points shared with the later ranges of `b` are none if `b[j]` already reaches beyond `r`. */
  lemma NothingBeyond(b: seq<Range>, j: nat, r: Range)
    requires SortedList(b) && j < |b| && r.Valid()
    requires b[j].EndsWithOrAfter(r)
    ensures forall x :: r.Has(x) && Member(b, x) ==> Member(b[..j + 1], x)
  {
    forall x | r.Has(x) && Member(b, x)
      ensures Member(b[..j + 1], x)
    {
      var k :| 0 <= k < |b| && b[k].Has(x);
      assert k <= j;
      assert b[..j + 1][k].Has(x);
    }
  }

  /** Advancing past `a[i]` keeps the ranges found so far, and the new one, behind the sweep. */
  lemma BehindAdvance(strict: bool, out: seq<Range>, a: seq<Range>, i: nat, b: seq<Range>, j: nat,
                      common: Option<Range>)
    requires Ordered(strict, a) && Ordered(strict, b) && Ordered(strict, out)
    requires i < |a| && j < |b| && Behind(strict, out, a, i, b, j)
    requires common.Some? ==> common.value.Valid() && a[i].Contains(common.value) && b[j].Contains(common.value)
    ensures Behind(strict, out, a, i + 1, b, j)
    ensures common.Some? ==> Behind(strict, out + [common.value], a, i + 1, b, j)
                             && Ordered(strict, out + [common.value])
  {
    forall k | 0 <= k < |out|
      ensures (i + 1 < |a| ==> Apart(strict, out[k], a[i + 1])) || Apart(strict, out[k], b[j])
      ensures common.Some? ==> Apart(strict, out[k], common.value)
    {
      if Apart(strict, out[k], a[i]) {
        assert i + 1 < |a| ==> Apart(strict, a[i], a[i + 1]);
      }
    }
    assert i + 1 < |a| ==> Apart(strict, a[i], a[i + 1]);
  }

  lemma BehindSwap(strict: bool, out: seq<Range>, a: seq<Range>, i: nat, b: seq<Range>, j: nat)
    requires Behind(strict, out, a, i, b, j)
    ensures Behind(strict, out, b, j, a, i)
  {
  }

  method IntersectRanges(a: seq<Range>, b: seq<Range>) returns (out: seq<Range>)
    requires SortedList(a) && SortedList(b)
    ensures SortedList(out)
    ensures CanonicalList(a) && CanonicalList(b) ==> CanonicalList(out)
    ensures forall x :: Member(out, x) <==> Member(a, x) && Member(b, x)
  {
    ghost var strict := CanonicalList(a) && CanonicalList(b);
    out := [];
    var i, j := 0, 0;
    while i < |a| && j < |b|
      invariant i <= |a| && j <= |b|
      invariant Ordered(strict, out) && Behind(strict, out, a, i, b, j)
      invariant forall x :: Member(out, x) <==>
                            Member(a, x) && Member(b, x) && (Member(a[..i], x) || Member(b[..j], x))
    {
      var thisRange, otherRange := a[i], b[j];
      var common: Option<Range>;
      MemberTake(a, i);
      MemberTake(b, j);
      if otherRange.EndsAfter(thisRange) {
        common := thisRange.Intersect(otherRange);
        NothingBeyond(b, j, thisRange);
        BehindAdvance(strict, out, a, i, b, j, common);
        i := i + 1;
      } else {
        common := otherRange.Intersect(thisRange);
        NothingBeyond(a, i, otherRange);
        BehindSwap(strict, out, a, i, b, j);
        BehindAdvance(strict, out, b, j, a, i, common);
        j := j + 1;
      }
      if common.Some? {
        MemberAppend(out, common.value);
        out := out + [common.value];
      }
    }
    assert a[..|a|] == a && b[..|b|] == b;
  }

  // ----- union -----

  /** x lies before the start of the next range of the list, if there is a next one. */
  ghost predicate BeforeNext(rs: seq<Range>, i: nat, x: Datum) {
    i < |rs| ==> !rs[i].PastLeft(x)
  }

  /** The output is to the left of everything still to be examined in the list. */
  ghost predicate LeftOfRest(out: seq<Range>, rs: seq<Range>, i: nat) {
    forall k :: i <= k < |rs| ==> AllLeftOf(out, rs[k])
  }

  /** No range examined in one list reaches beyond the next range of the other. */
  ghost predicate WithinNext(done: seq<Range>, rs: seq<Range>, i: nat) {
    i < |rs| ==> forall x :: Member(done, x) ==> rs[i].BeforeRight(x)
  }

  /** The points of the output: those examined that lie in front of both remainders. */
  ghost predicate UnionPoints(a: seq<Range>, i: nat, b: seq<Range>, j: nat, out: seq<Range>)
    requires i <= |a| && j <= |b|
  {
    forall x :: Member(out, x) <==>
                BeforeNext(a, i, x) && BeforeNext(b, j, x) && (Member(a[..i], x) || Member(b[..j], x))
  }

  /** The invariant of the union sweep. */
  ghost predicate UnionState(a: seq<Range>, i: nat, b: seq<Range>, j: nat, out: seq<Range>) {
    && i <= |a| && j <= |b|
    && CanonicalList(out) && LeftOfRest(out, a, i) && LeftOfRest(out, b, j)
    && WithinNext(b[..j], a, i) && WithinNext(a[..i], b, j)
    && UnionPoints(a, i, b, j, out)
  }

  lemma UnionStateSymmetric(a: seq<Range>, i: nat, b: seq<Range>, j: nat, out: seq<Range>)
    requires UnionState(a, i, b, j, out)
    ensures UnionState(b, j, a, i, out)
  {
  }

  lemma LeftOfRestFromLast(out: seq<Range>, r: Range, rs: seq<Range>, i: nat)
    requires SortedList(out) && SortedList(rs) && r.Valid() && EndsList(out, r)
    requires i < |rs| ==> r.DisjointLeft(rs[i])
    ensures LeftOfRest(out, rs, i)
  {
    forall k | i <= k < |rs|
      ensures AllLeftOf(out, rs[k])
    {
      assert k > i ==> rs[i].DisjointLeft(rs[k]);
      AllLeftOfFromLast(out, rs[k]);
    }
  }

  /** Consuming `a[i]`, which does not end after `b[j]`, moves its part in front of `b[j]` behind the sweep. */
  lemma UnionStepPoints(a: seq<Range>, i: nat, b: seq<Range>, j: nat, before: seq<Range>, out: seq<Range>)
    requires SortedList(a) && SortedList(b) && i < |a| && j < |b|
    requires b[j].EndsWithOrAfter(a[i])
    requires WithinNext(b[..j], a, i)
    requires UnionPoints(a, i, b, j, before)
    requires Appended(before, a[i].DifferenceLeft(b[j]), out)
    ensures UnionPoints(a, i + 1, b, j, out)
  {
    MemberTake(a, i);
    assert i + 1 < |a| ==> a[i].DisjointLeft(a[i + 1]);
    forall x
      ensures Member(out, x) <==> BeforeNext(a, i + 1, x) && BeforeNext(b, j, x)
                                  && (Member(a[..i + 1], x) || Member(b[..j], x))
    {
      assert Member(out, x) <==> Member(before, x) || (a[i].Has(x) && !b[j].PastLeft(x));
      if Member(a[..i], x) {
        var k :| 0 <= k < i && a[..i][k].Has(x);
        assert a[k].DisjointLeft(a[i]);
      }
    }
  }

  lemma WithinNextStep(a: seq<Range>, i: nat, b: seq<Range>, j: nat)
    requires SortedList(a) && SortedList(b) && i < |a| && j < |b|
    requires b[j].EndsWithOrAfter(a[i])
    requires WithinNext(b[..j], a, i) && WithinNext(a[..i], b, j)
    ensures WithinNext(b[..j], a, i + 1) && WithinNext(a[..i + 1], b, j)
  {
    MemberTake(a, i);
    assert i + 1 < |a| ==> a[i].DisjointLeft(a[i + 1]);
  }

  lemma UnionStep(a: seq<Range>, i: nat, b: seq<Range>, j: nat, before: seq<Range>, out: seq<Range>)
    requires SortedList(a) && SortedList(b) && i < |a| && j < |b|
    requires b[j].EndsWithOrAfter(a[i])
    requires UnionState(a, i, b, j, before)
    requires Appended(before, a[i].DifferenceLeft(b[j]), out)
    ensures UnionState(a, i + 1, b, j, out)
  {
    UnionStepPoints(a, i, b, j, before, out);
    WithinNextStep(a, i, b, j);
    var piece := a[i].DifferenceLeft(b[j]);
    if piece.Some? {
      assert i + 1 < |a| ==> a[i].DisjointLeft(a[i + 1]);
      LeftOfRestFromLast(out, piece.value, a, i + 1);
      LeftOfRestFromLast(out, piece.value, b, j);
    }
  }

  /** A piece cut off `a[i]` on the right still lies to the right of the output. */
  lemma PieceRightOfOutput(out: seq<Range>, a: seq<Range>, i: nat, other: Range)
    requires SortedList(a) && i < |a| && other.Valid() && LeftOfRest(out, a, i)
    ensures a[i].DifferenceLeft(other).Some? ==> AllLeftOf(out, a[i].DifferenceLeft(other).value)
  {
    assert AllLeftOf(out, a[i]);
  }

  /** Once `a` is exhausted, the output and the remainder of `b` are the union. */
  lemma UnionFinish(a: seq<Range>, b: seq<Range>, j: nat, out: seq<Range>)
    requires SortedList(a) && SortedList(b)
    requires UnionState(a, |a|, b, j, out)
    ensures forall x :: Member(out, x) || Member(b[j..], x) <==> Member(a, x) || Member(b, x)
  {
    assert a[..|a|] == a;
    forall x
      ensures Member(out, x) || Member(b[j..], x) <==> Member(a, x) || Member(b, x)
    {
      MemberSplit(b, j, x);
      if j < |b| && b[j].Has(x) {
        assert b[j..][0].Has(x);
      }
      if Member(b[..j], x) && j < |b| {
        var k :| 0 <= k < j && b[..j][k].Has(x);
        assert b[k].DisjointLeft(b[j]);
      }
    }
  }

  method UnionRanges(a: seq<Range>, b: seq<Range>) returns (out: seq<Range>)
    requires SortedList(a) && SortedList(b)
    ensures CanonicalList(out)
    ensures forall x :: Member(out, x) <==> Member(a, x) || Member(b, x)
  {
    out := [];
    var i, j := 0, 0;
    while i < |a| && j < |b|
      invariant UnionState(a, i, b, j, out)
    {
      var thisRange, otherRange := a[i], b[j];
      ghost var before := out;
      if otherRange.EndsAfter(thisRange) {
        PieceRightOfOutput(out, a, i, otherRange);
        out := AppendOrExtend(out, thisRange.DifferenceLeft(otherRange));
        UnionStep(a, i, b, j, before, out);
        i := i + 1;
      } else {
        PieceRightOfOutput(out, b, j, thisRange);
        out := AppendOrExtend(out, otherRange.DifferenceLeft(thisRange));
        UnionStateSymmetric(a, i, b, j, before);
        UnionStep(b, j, a, i, before, out);
        j := j + 1;
        UnionStateSymmetric(b, j, a, i, out);
      }
    }
    if i == |a| {
      UnionFinish(a, b, j, out);
    } else {
      UnionStateSymmetric(a, i, b, j, out);
      UnionFinish(b, a, i, out);
    }
    out := AddRemainingRanges(a, i, out);
    out := AddRemainingRanges(b, j, out);
  }

  // ----- difference -----

  /**
    The part of `first` in front of `second`, and what is left of `first` behind it. Both are
    missing if `second` lies in front; the part in front is also dropped if `first` ends before
    `second` does, which the caller excludes.
   */
  function DiffWithRightResidual(first: Range, second: Range): (r: (Option<Range>, Option<Range>))
    requires first.Valid() && second.Valid()
    ensures second.DisjointLeft(first) ==> r == (None, None)
    ensures !second.DisjointLeft(first) ==> r.1 == first.DifferenceRight(second)
    ensures !second.DisjointLeft(first) ==>
              (r.0 == first.DifferenceLeft(second) <==> first.EndsWithOrAfter(second) || first.DifferenceLeft(second).None?)
    ensures !second.EndsWithOrAfter(first) ==> first.EndsWithOrAfter(second) && (second.DisjointLeft(first) <==> r.1.None?)
  {
    if second.DisjointLeft(first) then (None, None)
    else
      (if first.Contains(second) then first.DifferenceLeft(second) else None, first.DifferenceRight(second))
  }

  /** The range that the next iteration looks at: the residual if there is one, else `a[i]`. */
  function Current(a: seq<Range>, i: nat, residual: Option<Range>): Range
    requires i < |a|
  {
    if residual.None? then a[i] else residual.value
  }

  /** The residual is the part of `a[i]` behind `b[j - 1]`, and starts right where `b[j - 1]` ends. */
  ghost predicate ResidualState(a: seq<Range>, i: nat, b: seq<Range>, j: nat, residual: Option<Range>) {
    residual.Some? ==>
      && i < |a| && 0 < j <= |b|
      && residual.value.Valid()
      && residual.value.left == b[j - 1].right && residual.value.leftIncl == !b[j - 1].rightIncl
      && residual.value.right == a[i].right && residual.value.rightIncl == a[i].rightIncl
      && a[i].StartsWithOrBefore(residual.value)
      && forall x :: residual.value.Has(x) <==> a[i].Has(x) && !b[j - 1].BeforeRight(x)
  }

  /** The points of the output: those of the consumed part of `a` that are in no range of `b`. */
  ghost predicate DifferencePoints(a: seq<Range>, i: nat, b: seq<Range>, residual: Option<Range>, out: seq<Range>)
    requires i <= |a|
  {
    forall x :: Member(out, x) <==>
      !Member(b, x) && (Member(a[..i], x) || (i < |a| && a[i].Has(x) && !Current(a, i, residual).Has(x)))
  }

  /** The invariant of the difference sweep. */
  ghost predicate DifferenceState(a: seq<Range>, i: nat, b: seq<Range>, j: nat, residual: Option<Range>, out: seq<Range>) {
    && i <= |a| && j <= |b|
    && CanonicalList(out)
    && ResidualState(a, i, b, j, residual)
    && (i < |a| ==> AllLeftOf(out, Current(a, i, residual)))
    && (i < |a| ==> AllLeftOf(b[..j], Current(a, i, residual)))
    && DifferencePoints(a, i, b, residual, out)
  }

  /** The next subtracted range is never to the left of a residual, so the residual is not dropped. */
  lemma ResidualNotLost(a: seq<Range>, i: nat, b: seq<Range>, j: nat, residual: Option<Range>)
    requires SortedList(a) && SortedList(b) && j < |b|
    requires ResidualState(a, i, b, j, residual) && residual.Some?
    ensures !b[j].DisjointLeft(residual.value)
  {
    assert b[j - 1].DisjointLeft(b[j]);
  }

  /** A piece of the current range in front of `b[j]` meets no range of `b`. */
  lemma PieceOutsideOther(b: seq<Range>, j: nat, cur: Range, x: Datum)
    requires SortedList(b) && j < |b| && cur.Valid() && AllLeftOf(b[..j], cur)
    requires cur.Has(x) && !b[j].PastLeft(x)
    ensures !Member(b, x)
  {
    assert forall k :: 0 <= k < j ==> b[..j][k].DisjointLeft(cur);
    assert forall k :: j < k < |b| ==> b[j].DisjointLeft(b[k]);
  }

  /** First case: `b[j]` reaches the end of the current range, which is then used up. */
  lemma DifferenceConsume(a: seq<Range>, i: nat, b: seq<Range>, j: nat, residual: Option<Range>,
                          before: seq<Range>, out: seq<Range>)
    requires SortedList(a) && SortedList(b) && i < |a| && j < |b|
    requires DifferenceState(a, i, b, j, residual, before)
    requires b[j].EndsWithOrAfter(Current(a, i, residual))
    requires Appended(before, Current(a, i, residual).DifferenceLeft(b[j]), out)
    ensures DifferenceState(a, i + 1, b, j, None, out)
  {
    var cur := Current(a, i, residual);
    var piece := cur.DifferenceLeft(b[j]);
    MemberTake(a, i);
    if i + 1 < |a| {
      assert a[i].DisjointLeft(a[i + 1]);
      AllLeftOfTransitive(b[..j], cur, a[i + 1]);
      if piece.Some? {
        AllLeftOfFromLast(out, a[i + 1]);
      } else {
        AllLeftOfTransitive(before, cur, a[i + 1]);
      }
    }
    forall x
      ensures Member(out, x) <==> !Member(b, x) && Member(a[..i + 1], x)
    {
      if cur.Has(x) {
        if !b[j].PastLeft(x) {
          PieceOutsideOther(b, j, cur, x);
        } else {
          assert b[j].Has(x);
        }
      }
    }
  }

  /** Second case: `b[j]` is entirely in front of the current range. */
  lemma DifferenceSkip(a: seq<Range>, i: nat, b: seq<Range>, j: nat, residual: Option<Range>, out: seq<Range>)
    requires SortedList(a) && SortedList(b) && i < |a| && j < |b|
    requires DifferenceState(a, i, b, j, residual, out)
    requires b[j].DisjointLeft(Current(a, i, residual))
    ensures DifferenceState(a, i, b, j + 1, None, out)
  {
    if residual.Some? {
      ResidualNotLost(a, i, b, j, residual);
    }
    assert b[..j + 1] == b[..j] + [b[j]];
  }

  /** Third case: the current range goes beyond `b[j]`, and the rest of it becomes the residual. */
  lemma DifferenceCut(a: seq<Range>, i: nat, b: seq<Range>, j: nat, residual: Option<Range>,
                      before: seq<Range>, out: seq<Range>)
    requires SortedList(a) && SortedList(b) && i < |a| && j < |b|
    requires DifferenceState(a, i, b, j, residual, before)
    requires !b[j].EndsWithOrAfter(Current(a, i, residual)) && !b[j].DisjointLeft(Current(a, i, residual))
    requires Appended(before, Current(a, i, residual).DifferenceLeft(b[j]), out)
    ensures DifferenceState(a, i, b, j + 1, Current(a, i, residual).DifferenceRight(b[j]), out)
  {
    var cur := Current(a, i, residual);
    var piece, rest := cur.DifferenceLeft(b[j]), cur.DifferenceRight(b[j]);
    assert rest.Some?;
    assert ResidualState(a, i, b, j + 1, rest) by {
      if residual.Some? {
        assert b[j - 1].DisjointLeft(b[j]);
      }
    }
    assert AllLeftOf(b[..j + 1], rest.value) by {
      assert b[..j + 1] == b[..j] + [b[j]];
      assert b[j].DisjointLeft(rest.value);
      forall k | 0 <= k < j
        ensures b[k].DisjointLeft(rest.value)
      {
        assert b[k].DisjointLeft(b[j]);
      }
    }
    assert AllLeftOf(out, rest.value) by {
      if piece.Some? {
        AllLeftOfFromLast(out, rest.value);
      }
    }
    forall x
      ensures Member(out, x) <==>
        !Member(b, x) && (Member(a[..i], x) || (a[i].Has(x) && !rest.value.Has(x)))
    {
      if cur.Has(x) {
        if !b[j].PastLeft(x) {
          PieceOutsideOther(b, j, cur, x);
        } else if b[j].BeforeRight(x) {
          assert b[j].Has(x);
        }
      }
    }
  }

  /** When `b` is exhausted, the output, the residual and the remaining ranges are the difference. */
  lemma DifferenceFinish(a: seq<Range>, i: nat, b: seq<Range>, residual: Option<Range>, before: seq<Range>,
                         out: seq<Range>, next: nat, x: Datum)
    requires SortedList(a) && SortedList(b) && i < |a|
    requires DifferenceState(a, i, b, |b|, residual, before)
    requires Appended(before, residual, out)
    requires next == if residual.Some? then i + 1 else i
    ensures Member(out, x) || Member(a[next..], x) <==> Member(a, x) && !Member(b, x)
  {
    var cur := Current(a, i, residual);
    MemberSplit(a, next, x);
    MemberTake(a, i);
    assert b[..|b|] == b;
    if Member(b, x) {
      var k :| 0 <= k < |b| && b[k].Has(x);
      assert b[k].DisjointLeft(cur);
      assert forall m :: i < m < |a| ==> a[i].DisjointLeft(a[m]);
    }
    if residual.None? && a[i].Has(x) {
      assert a[i..][0].Has(x);
    }
  }

  /** After the sweep and the last residual the output is to the left of the remaining ranges. */
  lemma DifferenceReady(a: seq<Range>, i: nat, b: seq<Range>, j: nat, residual: Option<Range>, before: seq<Range>,
                        out: seq<Range>, next: nat)
    requires SortedList(a) && SortedList(b) && DifferenceState(a, i, b, j, residual, before)
    requires Appended(before, residual, out) && next == if residual.Some? then i + 1 else i
    ensures forall k :: next <= k < |a| ==> AllLeftOf(out, a[k])
  {
    forall k | next <= k < |a|
      ensures AllLeftOf(out, a[k])
    {
      assert i < k ==> a[i].DisjointLeft(a[k]);
      if residual.Some? {
        AllLeftOfFromLast(out, a[k]);
      } else if i < k {
        AllLeftOfTransitive(before, a[i], a[k]);
      }
    }
  }

  /** With the remaining ranges it is the difference. */
  lemma DifferenceDone(a: seq<Range>, i: nat, b: seq<Range>, j: nat, residual: Option<Range>, before: seq<Range>,
                       out: seq<Range>, next: nat)
    requires SortedList(a) && SortedList(b) && DifferenceState(a, i, b, j, residual, before)
    requires i == |a| || j == |b|
    requires Appended(before, residual, out) && next == if residual.Some? then i + 1 else i
    ensures forall x :: Member(out, x) || Member(a[next..], x) <==> Member(a, x) && !Member(b, x)
  {
    if i < |a| {
      forall x
        ensures Member(out, x) || Member(a[next..], x) <==> Member(a, x) && !Member(b, x)
      {
        DifferenceFinish(a, i, b, residual, before, out, next, x);
      }
    } else {
      assert a[..|a|] == a;
    }
  }

  method DifferenceRanges(a: seq<Range>, b: seq<Range>) returns (out: seq<Range>)
    requires SortedList(a) && SortedList(b)
    ensures CanonicalList(out)
    ensures forall x :: Member(out, x) <==> Member(a, x) && !Member(b, x)
  {
    out := [];
    var i, j := 0, 0;
    var residual: Option<Range> := None;
    while i < |a| && j < |b|
      invariant DifferenceState(a, i, b, j, residual, out)
      decreases |a| - i + |b| - j
    {
      var thisRange, otherRange := Current(a, i, residual), b[j];
      ghost var before := out;
      if otherRange.EndsWithOrAfter(thisRange) {
        out := AppendOrExtend(out, thisRange.DifferenceLeft(otherRange));
        DifferenceConsume(a, i, b, j, residual, before, out);
        residual := None;
        i := i + 1;
      } else {
        var (piece, rest) := DiffWithRightResidual(thisRange, otherRange);
        out := AppendOrExtend(out, piece);
        if rest.None? {
          DifferenceSkip(a, i, b, j, residual, out);
        } else {
          DifferenceCut(a, i, b, j, residual, before, out);
        }
        residual := rest;
        j := j + 1;
      }
    }
    ghost var before, first := out, i;
    if residual.Some? {
      i := i + 1;
    }
    out := AppendOrExtend(out, residual);
    ghost var middle := out;
    DifferenceReady(a, first, b, j, residual, before, middle, i);
    out := AddRemainingRanges(a, i, out);
    DifferenceDone(a, first, b, j, residual, before, middle, i);
  }

  // ----- the operations on intervals -----

  method Intersect(a: Interval, b: Interval) returns (r: Interval)
    requires a.Sorted() && b.Sorted()
    ensures r.Sorted() && forall v :: r.Has(v) <==> a.Has(v) && b.Has(v)
    ensures a.Canonical() && b.Canonical() ==> IntersectionOf(r, a, b)
  {
    var ranges := IntersectRanges(a.ranges, b.ranges);
    r := Interval(ranges, a.nulls && b.nulls);
  }

  method Union(a: Interval, b: Interval) returns (r: Interval)
    requires a.Sorted() && b.Sorted()
    ensures UnionOf(r, a, b)
  {
    var ranges := UnionRanges(a.ranges, b.ranges);
    r := Interval(ranges, a.nulls || b.nulls);
  }

  method Difference(a: Interval, b: Interval) returns (r: Interval)
    requires a.Sorted() && b.Sorted()
    ensures DifferenceOf(r, a, b)
  {
    var ranges := DifferenceRanges(a.ranges, b.ranges);
    r := Interval(ranges, a.nulls && !b.nulls);
  }

  method Complement(a: Interval) returns (r: Interval)
    requires a.Sorted()
    ensures ComplementOf(r, a)
  {
    var universal := Unbounded(true);
    r := Difference(universal, a);
  }

  /**
    Does `outer` contain `inner`? On sorted intervals the answer is inclusion, except that an
    unbounded `inner` is only found in an `outer` that is unbounded in shape; if `outer` is
    canonical, that exception cannot arise.
   */
  method ContainsInterval(outer: Interval, inner: Interval) returns (contains: bool)
    requires outer.Sorted() && inner.Sorted()
    ensures contains <==> (forall v :: inner.Has(v) ==> outer.Has(v)) && (inner.IsUnbounded() ==> outer.IsUnbounded())
    ensures outer.Canonical() ==> (contains <==> forall v :: inner.Has(v) ==> outer.Has(v))
  {
    if outer.IsUnbounded() {
      UnboundedMeaning(outer);
      return true;
    }
    if inner.IsUnbounded() || (!outer.nulls && inner.nulls) {
      if outer.Canonical() && inner.IsUnbounded() {
        UnboundedMeaning(outer);
        UnboundedMeaning(inner);
      }
      if !outer.nulls && inner.nulls {
        assert inner.Has(Null) && !outer.Has(Null);
      }
      return false;
    }
    var diff := Difference(inner, outer);
    contains := diff.IsContradiction();
    ContradictionMeaning(diff);
  }

  // ----- the union of a list of intervals -----

  ghost predicate AllCanonical(ivs: seq<Interval>) {
    forall k :: 0 <= k < |ivs| ==> ivs[k].Canonical()
  }

  ghost predicate SomeHas(ivs: seq<Interval>, v: Value) {
    exists k :: 0 <= k < |ivs| && ivs[k].Has(v)
  }

  ghost predicate UnionOfAll(r: Interval, ivs: seq<Interval>) {
    r.Canonical() && forall v :: r.Has(v) <==> SomeHas(ivs, v)
  }

  /** One round of the reduction: neighbours are united in pairs, an odd last one is carried over. */
  method UnionPairs(ivs: seq<Interval>) returns (out: seq<Interval>)
    requires |ivs| > 1 && AllCanonical(ivs)
    ensures AllCanonical(out) && 0 < |out| == (|ivs| + 1) / 2
    ensures forall v :: SomeHas(out, v) <==> SomeHas(ivs, v)
  {
    out := [];
    var k := 0;
    while k < |ivs| - 1
      invariant 0 <= k <= |ivs| && k % 2 == 0
      invariant |out| == k / 2 && AllCanonical(out)
      invariant forall v :: SomeHas(out, v) <==> SomeHas(ivs[..k], v)
      decreases |ivs| - k
    {
      var pair := Union(ivs[k], ivs[k + 1]);
      SomeHasAppend(out, pair);
      SomeHasAppend(ivs[..k], ivs[k]);
      SomeHasAppend(ivs[..k + 1], ivs[k + 1]);
      assert ivs[..k + 1] == ivs[..k] + [ivs[k]];
      assert ivs[..k + 2] == ivs[..k + 1] + [ivs[k + 1]];
      out := out + [pair];
      k := k + 2;
    }
    if k < |ivs| {
      SomeHasAppend(out, ivs[k]);
      SomeHasAppend(ivs[..k], ivs[k]);
      assert ivs == ivs[..k] + [ivs[k]];
      out := out + [ivs[k]];
    } else {
      assert ivs[..k] == ivs;
    }
  }

  lemma SomeHasAppend(ivs: seq<Interval>, i: Interval)
    ensures forall v :: SomeHas(ivs + [i], v) <==> SomeHas(ivs, v) || i.Has(v)
  {
    forall v
      ensures SomeHas(ivs + [i], v) <==> SomeHas(ivs, v) || i.Has(v)
    {
      if SomeHas(ivs, v) {
        var k :| 0 <= k < |ivs| && ivs[k].Has(v);
        assert (ivs + [i])[k].Has(v);
      }
      if i.Has(v) {
        assert (ivs + [i])[|ivs|].Has(v);
      }
    }
  }

  /** The balanced reduction by pairs. */
  method UnionAll(ivs: seq<Interval>) returns (r: Interval)
    requires |ivs| > 0 && AllCanonical(ivs)
    ensures UnionOfAll(r, ivs)
  {
    var level := ivs;
    while |level| > 1
      invariant |level| > 0 && AllCanonical(level)
      invariant forall v :: SomeHas(level, v) <==> SomeHas(ivs, v)
      decreases |level|
    {
      level := UnionPairs(level);
    }
    r := level[0];
  }

  /** `r` can be reached by uniting the intervals one after the other, from the left. */
  ghost predicate FoldOf(r: Interval, ivs: seq<Interval>)
    requires |ivs| > 0
    decreases |ivs|
  {
    if |ivs| == 1 then r == ivs[0]
    else
      var init, last := ivs[..|ivs| - 1], ivs[|ivs| - 1];
      exists p: Interval :: FoldOf(p, init) && UnionOf(r, p, last)
  }

  lemma {:induction false} FoldIsUnionOfAll(r: Interval, ivs: seq<Interval>)
    requires |ivs| > 0 && AllCanonical(ivs) && FoldOf(r, ivs)
    ensures UnionOfAll(r, ivs)
    decreases |ivs|
  {
    if |ivs| > 1 {
      var init, last := ivs[..|ivs| - 1], ivs[|ivs| - 1];
      var p: Interval :| FoldOf(p, init) && UnionOf(r, p, last);
      FoldIsUnionOfAll(p, init);
      SomeHasAppend(init, last);
      assert ivs == init + [last];
    }
  }

  /** The balanced reduction and the plain fold produce the same list of ranges. */
  lemma PairwiseEqualsFold(balanced: Interval, folded: Interval, ivs: seq<Interval>)
    requires |ivs| > 0 && AllCanonical(ivs)
    requires UnionOfAll(balanced, ivs) && FoldOf(folded, ivs)
    ensures balanced == folded
  {
    FoldIsUnionOfAll(folded, ivs);
    IntervalUnique(balanced, folded);
  }
}
