/**
  Constraint trees over many columns (CConstraint, CConstraintConjunction, CConstraintDisjunction):
  the data, the rows that satisfy a tree, and the tests that only look at a tree.
 */
module Constraints {
  import opened Intervals

  type Col = nat

  type Row = Col -> Value

  datatype Constraint =
    | Leaf(col: Col, interval: Interval)
    | Conj(parts: seq<Constraint>)
    | Disj(parts: seq<Constraint>)

  /** Columns used by a constraint. */
  function Cols(c: Constraint): set<Col>
    decreases c, 1
  {
    match c
    case Leaf(col, _) => {col}
    case Conj(parts) => ColsOf(parts)
    case Disj(parts) => ColsOf(parts)
  }

  function ColsOf(cs: seq<Constraint>): set<Col>
    decreases cs, 0
  {
    if cs == [] then {} else ColsOf(cs[..|cs| - 1]) + Cols(cs[|cs| - 1])
  }

  ghost predicate Valid(c: Constraint) {
    match c
    case Leaf(_, interval) => interval.Canonical()
    case Conj(parts) => |parts| > 0 && forall k :: 0 <= k < |parts| ==> Valid(parts[k])
    case Disj(parts) => |parts| > 0 && forall k :: 0 <= k < |parts| ==> Valid(parts[k])
  }

  ghost predicate ValidParts(cs: seq<Constraint>) {
    forall k :: 0 <= k < |cs| ==> Valid(cs[k])
  }

  ghost predicate Sat(c: Constraint, row: Row) {
    match c
    case Leaf(col, interval) => interval.Has(row(col))
    case Conj(parts) => forall k :: 0 <= k < |parts| ==> Sat(parts[k], row)
    case Disj(parts) => exists k :: 0 <= k < |parts| && Sat(parts[k], row)
  }

  function Node(conj: bool, parts: seq<Constraint>): Constraint {
    if conj then Conj(parts) else Disj(parts)
  }

  /** The row that has the same value in every column. */
  function ConstRow(v: Value): Row {
    (_: Col) => v
  }

  /** All constraints of the list are satisfied, or all are not. */
  ghost predicate AllAre(cs: seq<Constraint>, row: Row, b: bool) {
    forall k :: 0 <= k < |cs| ==> (Sat(cs[k], row) <==> b)
  }

  /** A conjunction holds if all parts do; a disjunction fails if all parts do. */
  lemma NodeSat(conj: bool, parts: seq<Constraint>, row: Row)
    ensures (Sat(Node(conj, parts), row) <==> conj) <==> AllAre(parts, row, conj)
  {
  }

  lemma SingletonSet(cols: set<Col>, col: Col)
    requires |cols| == 1 && col in cols
    ensures cols == {col}
  {
    var rest := cols - {col};
    assert |rest| == 0;
    assert cols == rest + {col};
  }

  lemma {:induction false} ColsOfMember(cs: seq<Constraint>, col: Col)
    ensures col in ColsOf(cs) <==> exists k :: 0 <= k < |cs| && col in Cols(cs[k])
  {
    if cs != [] {
      var init := cs[..|cs| - 1];
      ColsOfMember(init, col);
      assert forall k :: 0 <= k < |init| ==> init[k] == cs[k];
    }
  }

  lemma ColsOfSubset(cs: seq<Constraint>, k: nat)
    requires k < |cs|
    ensures Cols(cs[k]) <= ColsOf(cs)
  {
    forall col | col in Cols(cs[k]) { ColsOfMember(cs, col); }
  }

  lemma {:induction false} ColsNonEmpty(c: Constraint)
    requires Valid(c)
    ensures Cols(c) != {}
    decreases c
  {
    if !c.Leaf? {
      ColsNonEmpty(c.parts[0]);
      ColsOfSubset(c.parts, 0);
    }
  }

  /** Only the values of the used columns matter. */
  lemma {:induction false} SatDependsOnCols(c: Constraint, r: Row, s: Row)
    requires forall col :: col in Cols(c) ==> r(col) == s(col)
    ensures Sat(c, r) <==> Sat(c, s)
    decreases c
  {
    if !c.Leaf? {
      forall k | 0 <= k < |c.parts|
        ensures Sat(c.parts[k], r) <==> Sat(c.parts[k], s)
      {
        ColsOfSubset(c.parts, k);
        SatDependsOnCols(c.parts[k], r, s);
      }
    }
  }

  lemma SatSingleColumn(c: Constraint, col: Col, row: Row)
    requires Cols(c) <= {col}
    ensures Sat(c, row) <==> Sat(c, ConstRow(row(col)))
  {
    SatDependsOnCols(c, row, ConstRow(row(col)));
  }

  // ----- unboundedness and contradiction -----

  predicate IsUnbounded(c: Constraint) {
    c.Leaf? && c.interval.IsUnbounded()
  }

  predicate IsContradiction(c: Constraint) {
    match c
    case Leaf(_, interval) => interval.IsContradiction()
    case Conj(parts) => exists k :: 0 <= k < |parts| && IsContradiction(parts[k])
    case Disj(parts) => forall k :: 0 <= k < |parts| ==> IsContradiction(parts[k])
  }

  /** A contradiction is satisfied by no row. */
  lemma {:induction false} ContradictionSound(c: Constraint, row: Row)
    requires Valid(c) && IsContradiction(c)
    ensures !Sat(c, row)
    decreases c
  {
    match c
    case Leaf(_, interval) =>
      ContradictionMeaning(interval);
    case Conj(parts) =>
      var k :| 0 <= k < |parts| && IsContradiction(parts[k]);
      ContradictionSound(parts[k], row);
    case Disj(parts) =>
      forall k | 0 <= k < |parts|
        ensures !Sat(parts[k], row)
      {
        ContradictionSound(parts[k], row);
      }
  }

  /** No two parts that use a single column use the same one. */
  ghost predicate OnePerColumn(cs: seq<Constraint>) {
    forall i, j :: 0 <= i < j < |cs| && |Cols(cs[i])| == 1 ==> Cols(cs[i]) != Cols(cs[j])
  }

  /** Every conjunction in the tree is over intervals on different columns. */
  ghost predicate Decided(c: Constraint) {
    match c
    case Leaf(_, _) => true
    case Conj(parts) => OnePerColumn(parts) && forall k :: 0 <= k < |parts| ==> parts[k].Leaf?
    case Disj(parts) => forall k :: 0 <= k < |parts| ==> Decided(parts[k])
  }

  /** Intervals, conjunctions of intervals on different columns, and disjunctions of such trees. */
  lemma DecidedShapes(c: Constraint)
    ensures c.Leaf? ==> Decided(c)
    ensures (c.Conj? && (forall k :: 0 <= k < |c.parts| ==> c.parts[k].Leaf?)
             && (forall i, j :: 0 <= i < j < |c.parts| ==> c.parts[i].col != c.parts[j].col)) ==> Decided(c)
    ensures c.Disj? && (forall k :: 0 <= k < |c.parts| ==> Decided(c.parts[k])) ==> Decided(c)
  {
    if c.Conj? && forall k :: 0 <= k < |c.parts| ==> c.parts[k].Leaf? {
      forall i, j | 0 <= i < j < |c.parts| && c.parts[i].col != c.parts[j].col
        ensures Cols(c.parts[i]) != Cols(c.parts[j])
      {
        assert c.parts[i].col in Cols(c.parts[i]);
      }
    }
  }

  /** A row for the first n parts of a conjunction of satisfiable intervals on different columns. */
  lemma {:induction false} ConjunctionRow(parts: seq<Constraint>, n: nat) returns (row: Row)
    requires n <= |parts| && ValidParts(parts) && OnePerColumn(parts)
    requires forall k :: 0 <= k < |parts| ==> parts[k].Leaf? && !IsContradiction(parts[k])
    ensures forall k :: 0 <= k < n ==> Sat(parts[k], row)
  {
    if n == 0 {
      row := ConstRow(Null);
    } else {
      var rest := ConjunctionRow(parts, n - 1);
      var last := parts[n - 1];
      ContradictionMeaning(last.interval);
      var v :| last.interval.Has(v);
      row := (col: Col) => if col == last.col then v else rest(col);
      forall k | 0 <= k < n - 1
        ensures Sat(parts[k], row)
      {
        assert Cols(parts[k]) != Cols(last);
      }
    }
  }

  /** For such trees the contradiction test is exact. */
  lemma {:induction false} ContradictionExact(c: Constraint)
    requires Valid(c) && Decided(c)
    ensures IsContradiction(c) <==> forall row: Row :: !Sat(c, row)
    decreases c
  {
    if IsContradiction(c) {
      forall row: Row { ContradictionSound(c, row); }
    } else {
      match c
      case Leaf(col, interval) =>
        ContradictionMeaning(interval);
        var v :| interval.Has(v);
        assert Sat(c, ConstRow(v));
      case Conj(parts) =>
        var row := ConjunctionRow(parts, |parts|);
        assert Sat(c, row);
      case Disj(parts) =>
        var k :| 0 <= k < |parts| && !IsContradiction(parts[k]);
        ContradictionExact(parts[k]);
        var row :| Sat(parts[k], row);
        assert Sat(c, row);
    }
  }

  // ----- projection, seen from the rows -----

  /** The tree with every interval outside the given columns taken as true. */
  ghost predicate Relaxed(c: Constraint, cols: set<Col>, row: Row) {
    match c
    case Leaf(col, interval) => col in cols ==> interval.Has(row(col))
    case Conj(parts) => forall k :: 0 <= k < |parts| ==> Relaxed(parts[k], cols, row)
    case Disj(parts) => exists k :: 0 <= k < |parts| && Relaxed(parts[k], cols, row)
  }

  /** Relaxing never loses a row. */
  lemma {:induction false} RelaxedSound(c: Constraint, cols: set<Col>, row: Row)
    requires Sat(c, row)
    ensures Relaxed(c, cols, row)
    decreases c
  {
    match c
    case Leaf(_, _) =>
    case Conj(parts) =>
      forall k | 0 <= k < |parts| { RelaxedSound(parts[k], cols, row); }
    case Disj(parts) =>
      var k :| 0 <= k < |parts| && Sat(parts[k], row);
      RelaxedSound(parts[k], cols, row);
  }

  ghost predicate SameOn(cols: set<Col>, r: Row, s: Row) {
    forall col :: col in cols ==> r(col) == s(col)
  }

  /** Every interval in the tree holds a value. */
  predicate NoEmptyLeaf(c: Constraint) {
    match c
    case Leaf(_, interval) => !interval.IsContradiction()
    case Conj(parts) => forall k :: 0 <= k < |parts| ==> NoEmptyLeaf(parts[k])
    case Disj(parts) => forall k :: 0 <= k < |parts| ==> NoEmptyLeaf(parts[k])
  }

  /** A row for the first n parts of such a conjunction that keeps the values of the given columns. */
  lemma {:induction false} ConjunctionExtends(parts: seq<Constraint>, n: nat, cols: set<Col>, row: Row) returns (s: Row)
    requires n <= |parts| && ValidParts(parts) && OnePerColumn(parts)
    requires forall k :: 0 <= k < |parts| ==> parts[k].Leaf? && NoEmptyLeaf(parts[k]) && Relaxed(parts[k], cols, row)
    ensures SameOn(cols, row, s) && forall k :: 0 <= k < n ==> Sat(parts[k], s)
  {
    if n == 0 {
      s := row;
    } else {
      var rest := ConjunctionExtends(parts, n - 1, cols, row);
      var last := parts[n - 1];
      ContradictionMeaning(last.interval);
      var v :| last.interval.Has(v) && (last.col in cols ==> v == row(last.col));
      s := (col: Col) => if col == last.col then v else rest(col);
      forall k | 0 <= k < n - 1
        ensures Sat(parts[k], s)
      {
        assert Cols(parts[k]) != Cols(last);
      }
    }
  }

  /** Projection is exact: the relaxed tree holds of a row exactly if other values outside the columns satisfy the tree. */
  lemma {:induction false} RelaxedExact(c: Constraint, cols: set<Col>, row: Row)
    requires Valid(c) && Decided(c) && NoEmptyLeaf(c)
    ensures Relaxed(c, cols, row) <==> exists s: Row :: SameOn(cols, row, s) && Sat(c, s)
    decreases c
  {
    forall s: Row | SameOn(cols, row, s) && Sat(c, s)
      ensures Relaxed(c, cols, row)
    {
      RelaxedSound(c, cols, s);
      RelaxedDependsOnCols(c, cols, row, s);
    }
    if Relaxed(c, cols, row) {
      match c
      case Leaf(_, _) =>
        assert [c][0] == c;
        var s := ConjunctionExtends([c], 1, cols, row);
      case Conj(parts) =>
        var s := ConjunctionExtends(parts, |parts|, cols, row);
      case Disj(parts) =>
        var k :| 0 <= k < |parts| && Relaxed(parts[k], cols, row);
        RelaxedExact(parts[k], cols, row);
        var s: Row :| SameOn(cols, row, s) && Sat(parts[k], s);
        assert Sat(c, s);
    }
  }

  /** A tree that uses none of the columns is relaxed to true. */
  lemma {:induction false} RelaxedDisjoint(c: Constraint, cols: set<Col>, row: Row)
    requires Valid(c) && Cols(c) !! cols
    ensures Relaxed(c, cols, row)
    decreases c
  {
    if !c.Leaf? {
      forall k | 0 <= k < |c.parts|
        ensures Relaxed(c.parts[k], cols, row)
      {
        ColsOfSubset(c.parts, k);
        RelaxedDisjoint(c.parts[k], cols, row);
      }
    }
  }

  /** A tree that uses only the given columns is not changed. */
  lemma {:induction false} RelaxedWithin(c: Constraint, cols: set<Col>, row: Row)
    requires Cols(c) <= cols
    ensures Relaxed(c, cols, row) <==> Sat(c, row)
    decreases c
  {
    if !c.Leaf? {
      forall k | 0 <= k < |c.parts|
        ensures Relaxed(c.parts[k], cols, row) <==> Sat(c.parts[k], row)
      {
        ColsOfSubset(c.parts, k);
        RelaxedWithin(c.parts[k], cols, row);
      }
    }
  }

  lemma {:induction false} RelaxedDependsOnCols(c: Constraint, cols: set<Col>, r: Row, s: Row)
    requires forall col :: col in cols ==> r(col) == s(col)
    ensures Relaxed(c, cols, r) <==> Relaxed(c, cols, s)
    decreases c
  {
    if !c.Leaf? {
      forall k | 0 <= k < |c.parts|
        ensures Relaxed(c.parts[k], cols, r) <==> Relaxed(c.parts[k], cols, s)
      {
        RelaxedDependsOnCols(c.parts[k], cols, r, s);
      }
    }
  }
}
