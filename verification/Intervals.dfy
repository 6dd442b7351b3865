/**
  Interval constraints on one column (CConstraintInterval): a sorted list of ranges and a
  flag that tells whether NULL is included. This module holds the data and its meaning, the
  uniqueness of canonical lists, and the laws that follow from it; the sweeps are in
  `IntervalSweeps`.
 */
module Intervals {
  import opened Options
  import opened Ranges

  /** The value of a column in a row. */
  datatype Value = Null | Val(x: Datum)

  datatype Interval = Interval(ranges: seq<Range>, nulls: bool) {

    ghost predicate Has(v: Value) {
      match v
      case Null => nulls
      case Val(x) => Member(ranges, x)
    }

    ghost predicate Sorted() {
      SortedList(ranges)
    }

    ghost predicate Canonical() {
      CanonicalList(ranges)
    }

    predicate IsContradiction() {
      !nulls && |ranges| == 0
    }

    predicate IsUnbounded() {
      nulls && |ranges| == 1 && ranges[0].IsUnbounded()
    }
  }

  const UNBOUNDED_RANGE := Range(None, false, None, false)

  function Unbounded(nulls: bool): (i: Interval)
    ensures i.Canonical()
    ensures forall v :: i.Has(v) <==> v.Val? || nulls
  {
    var i := Interval([UNBOUNDED_RANGE], nulls);
    assert forall x :: i.ranges[0].Has(x);
    i
  }

  ghost predicate Member(rs: seq<Range>, x: Datum) {
    exists k :: 0 <= k < |rs| && rs[k].Has(x)
  }

  ghost predicate AllValid(rs: seq<Range>) {
    forall k :: 0 <= k < |rs| ==> rs[k].Valid()
  }

  /** Every range of the list is to the left of `r`. */
  ghost predicate AllLeftOf(rs: seq<Range>, r: Range) {
    forall k :: 0 <= k < |rs| ==> rs[k].DisjointLeft(r)
  }

  /** Valid ranges, from left to right, without overlap. */
  ghost predicate SortedList(rs: seq<Range>) {
    AllValid(rs) && forall i, j :: 0 <= i < j < |rs| ==> rs[i].DisjointLeft(rs[j])
  }

  /** Sorted, and no two ranges could be merged. */
  ghost predicate CanonicalList(rs: seq<Range>) {
    AllValid(rs) && forall i, j :: 0 <= i < j < |rs| ==> rs[i].Separated(rs[j])
  }

  lemma MemberAppend(rs: seq<Range>, r: Range)
    ensures forall x :: Member(rs + [r], x) <==> Member(rs, x) || r.Has(x)
  {
    forall x
      ensures Member(rs + [r], x) <==> Member(rs, x) || r.Has(x)
    {
      if Member(rs, x) {
        var k :| 0 <= k < |rs| && rs[k].Has(x);
        assert (rs + [r])[k].Has(x);
      }
      if r.Has(x) {
        assert (rs + [r])[|rs|].Has(x);
      }
    }
  }

  lemma MemberTake(rs: seq<Range>, n: nat)
    requires n < |rs|
    ensures forall x :: Member(rs[..n + 1], x) <==> Member(rs[..n], x) || rs[n].Has(x)
  {
    assert rs[..n + 1] == rs[..n] + [rs[n]];
    MemberAppend(rs[..n], rs[n]);
  }

  lemma MemberSplit(rs: seq<Range>, n: nat, x: Datum)
    requires n <= |rs|
    ensures Member(rs, x) <==> Member(rs[..n], x) || Member(rs[n..], x)
  {
    if Member(rs, x) {
      var k :| 0 <= k < |rs| && rs[k].Has(x);
      assert if k < n then rs[..n][k].Has(x) else rs[n..][k - n].Has(x);
    }
    if Member(rs[n..], x) {
      var k :| 0 <= k < |rs[n..]| && rs[n..][k].Has(x);
      assert rs[n + k].Has(x);
    }
  }

  lemma MemberHeadTail(rs: seq<Range>, x: Datum)
    requires |rs| > 0
    ensures Member(rs, x) <==> rs[0].Has(x) || Member(rs[1..], x)
  {
    if Member(rs, x) {
      var k :| 0 <= k < |rs| && rs[k].Has(x);
      assert k > 0 ==> rs[1..][k - 1].Has(x);
    }
    if Member(rs[1..], x) {
      var k :| 0 <= k < |rs[1..]| && rs[1..][k].Has(x);
      assert rs[k + 1].Has(x);
    }
  }

  // ----- canonical lists are unique -----

  /** If the first range of `a` starts strictly before that of `b`, the two lists differ in a point. */
  lemma StartWitness(a: seq<Range>, b: seq<Range>) returns (x: Datum)
    requires SortedList(a) && SortedList(b) && |a| > 0
    requires |b| == 0 || a[0].DifferenceLeft(b[0]).Some?
    ensures Member(a, x) && !Member(b, x)
  {
    if |b| == 0 {
      x := a[0].Point();
    } else {
      x := a[0].DifferenceLeft(b[0]).value.Point();
    }
    assert a[0].Has(x);
  }

  /** If the first range of `a` goes beyond that of `b`, there is a point of `a` in the gap behind `b[0]`. */
  lemma EndWitness(a: seq<Range>, b: seq<Range>) returns (x: Datum)
    requires SortedList(a) && CanonicalList(b) && |a| > 0 && |b| > 0
    requires a[0].left == b[0].left && a[0].leftIncl == b[0].leftIncl
    requires a[0].DifferenceRight(b[0]).Some?
    ensures Member(a, x) && !Member(b, x)
  {
    var rest := a[0].DifferenceRight(b[0]).value;
    if |b| == 1 {
      x := rest.Point();
    } else {
      assert b[0].Separated(b[1]);
      x := rest.DifferenceLeft(b[1]).value.Point();
      assert forall k :: 1 < k < |b| ==> b[1].Separated(b[k]);
    }
    assert a[0].Has(x);
  }

  /** Two canonical lists with the same points start with the same range. */
  lemma SameHead(a: seq<Range>, b: seq<Range>)
    requires CanonicalList(a) && CanonicalList(b) && |a| > 0 && |b| > 0
    requires forall x :: Member(a, x) <==> Member(b, x)
    ensures a[0] == b[0]
  {
    if a[0].DifferenceLeft(b[0]).Some? {
      var x := StartWitness(a, b);
    } else if b[0].DifferenceLeft(a[0]).Some? {
      var x := StartWitness(b, a);
    } else if a[0].DifferenceRight(b[0]).Some? {
      var x := EndWitness(a, b);
    } else if b[0].DifferenceRight(a[0]).Some? {
      var x := EndWitness(b, a);
    }
  }

  /** Uniqueness: a canonical list is determined by the points it holds. */
  lemma {:induction false} CanonicalUnique(a: seq<Range>, b: seq<Range>)
    requires CanonicalList(a) && CanonicalList(b)
    requires forall x :: Member(a, x) <==> Member(b, x)
    ensures a == b
  {
    if |a| == 0 || |b| == 0 {
      if |a| > 0 {
        var x := StartWitness(a, b);
      } else if |b| > 0 {
        var x := StartWitness(b, a);
      }
    } else {
      SameHead(a, b);
      forall x
        ensures Member(a[1..], x) <==> Member(b[1..], x)
      {
        MemberHeadTail(a, x);
        MemberHeadTail(b, x);
      }
      CanonicalUnique(a[1..], b[1..]);
    }
  }

  /** Uniqueness for intervals: same values, NULL included, means the same list and the same flag. */
  lemma IntervalUnique(a: Interval, b: Interval)
    requires a.Canonical() && b.Canonical()
    requires forall v :: a.Has(v) <==> b.Has(v)
    ensures a == b
  {
    assert a.nulls == b.nulls by {
      assert a.Has(Null) <==> b.Has(Null);
    }
    forall x
      ensures Member(a.ranges, x) <==> Member(b.ranges, x)
    {
      assert a.Has(Val(x)) <==> b.Has(Val(x));
    }
    CanonicalUnique(a.ranges, b.ranges);
  }

  function IntegerValue(n: int): Value {
    Val(n as real)
  }

  /** Uniqueness needs a dense order: these two canonical intervals hold the same integers. */
  lemma NotUniqueOnIntegers()
    ensures exists a: Interval, b: Interval ::
              a.Canonical() && b.Canonical() && a != b &&
              forall n: int :: a.Has(IntegerValue(n)) <==> b.Has(IntegerValue(n))
  {
    var a := Interval([Range(Some(1.0), true, Some(2.0), true)], false);
    var b := Interval([Range(Some(1.0), true, Some(1.0), true), Range(Some(2.0), true, Some(2.0), true)], false);
    forall n: int
      ensures a.Has(IntegerValue(n)) <==> b.Has(IntegerValue(n))
    {
      assert a.ranges[0].Has(n as real) <==> n == 1 || n == 2;
      assert b.ranges[0].Has(n as real) <==> n == 1;
      assert b.ranges[1].Has(n as real) <==> n == 2;
    }
    assert a.Canonical() && b.Canonical() && a != b;
  }

  /** A canonical interval holds every value only in the shape that the unboundedness test looks for. */
  lemma UnboundedMeaning(i: Interval)
    requires i.Canonical()
    ensures i.IsUnbounded() <==> forall v :: i.Has(v)
  {
    if forall v :: i.Has(v) {
      IntervalUnique(i, Unbounded(true));
    }
    if i.IsUnbounded() {
      assert forall x :: i.ranges[0].Has(x);
    }
  }

  /** The contradiction test is exact on every sorted interval. */
  lemma ContradictionMeaning(i: Interval)
    requires i.Sorted()
    ensures i.IsContradiction() <==> forall v :: !i.Has(v)
  {
    if !i.IsContradiction() {
      if i.nulls {
        assert i.Has(Null);
      } else {
        assert i.ranges[0].Has(i.ranges[0].Point());
        assert i.Has(Val(i.ranges[0].Point()));
      }
    }
  }

  // ----- what the set operations promise, and the laws that every conforming result obeys -----

  ghost predicate UnionOf(r: Interval, a: Interval, b: Interval) {
    r.Canonical() && forall v :: r.Has(v) <==> a.Has(v) || b.Has(v)
  }

  ghost predicate IntersectionOf(r: Interval, a: Interval, b: Interval) {
    r.Canonical() && forall v :: r.Has(v) <==> a.Has(v) && b.Has(v)
  }

  ghost predicate DifferenceOf(r: Interval, a: Interval, b: Interval) {
    r.Canonical() && forall v :: r.Has(v) <==> a.Has(v) && !b.Has(v)
  }

  ghost predicate ComplementOf(r: Interval, a: Interval) {
    r.Canonical() && forall v :: r.Has(v) <==> !a.Has(v)
  }

  lemma UnionCommutes(a: Interval, b: Interval, ab: Interval, ba: Interval)
    requires UnionOf(ab, a, b) && UnionOf(ba, b, a)
    ensures ab == ba
  {
    IntervalUnique(ab, ba);
  }

  lemma UnionAssociates(a: Interval, b: Interval, c: Interval,
                        ab: Interval, bc: Interval, left: Interval, right: Interval)
    requires UnionOf(ab, a, b) && UnionOf(left, ab, c)
    requires UnionOf(bc, b, c) && UnionOf(right, a, bc)
    ensures left == right
  {
    IntervalUnique(left, right);
  }

  lemma IntersectionCommutes(a: Interval, b: Interval, ab: Interval, ba: Interval)
    requires IntersectionOf(ab, a, b) && IntersectionOf(ba, b, a)
    ensures ab == ba
  {
    IntervalUnique(ab, ba);
  }

  lemma IntersectionAssociates(a: Interval, b: Interval, c: Interval,
                               ab: Interval, bc: Interval, left: Interval, right: Interval)
    requires IntersectionOf(ab, a, b) && IntersectionOf(left, ab, c)
    requires IntersectionOf(bc, b, c) && IntersectionOf(right, a, bc)
    ensures left == right
  {
    IntervalUnique(left, right);
  }

  /** The complement of a union is the intersection of the complements, range by range. */
  lemma DeMorgan(a: Interval, b: Interval, union: Interval, notUnion: Interval,
                 notA: Interval, notB: Interval, meet: Interval)
    requires UnionOf(union, a, b) && ComplementOf(notUnion, union)
    requires ComplementOf(notA, a) && ComplementOf(notB, b) && IntersectionOf(meet, notA, notB)
    ensures notUnion == meet
  {
    IntervalUnique(notUnion, meet);
  }

  /** The complement of an intersection is the union of the complements, range by range. */
  lemma DeMorganDual(a: Interval, b: Interval, meet: Interval, notMeet: Interval,
                     notA: Interval, notB: Interval, union: Interval)
    requires IntersectionOf(meet, a, b) && ComplementOf(notMeet, meet)
    requires ComplementOf(notA, a) && ComplementOf(notB, b) && UnionOf(union, notA, notB)
    ensures notMeet == union
  {
    IntervalUnique(notMeet, union);
  }

  lemma DoubleComplement(a: Interval, notA: Interval, notNotA: Interval)
    requires a.Canonical()
    requires ComplementOf(notA, a) && ComplementOf(notNotA, notA)
    ensures notNotA == a
  {
    IntervalUnique(notNotA, a);
  }

  /** Subtracting is intersecting with the complement. */
  lemma DifferenceAsIntersection(a: Interval, b: Interval, diff: Interval, notB: Interval, meet: Interval)
    requires DifferenceOf(diff, a, b)
    requires ComplementOf(notB, b) && IntersectionOf(meet, a, notB)
    ensures diff == meet
  {
    IntervalUnique(diff, meet);
  }
}
