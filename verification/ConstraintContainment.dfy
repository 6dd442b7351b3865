/**
  Containment between constraints (CConstraint::Contains): column by column, with the answers of
  earlier queries remembered in a table that belongs to the receiver.
 */
module ConstraintContainment {
  import opened Options
  import opened Ranges
  import opened Intervals
  import opened IntervalSweeps
  import opened Constraints
  import opened ConstraintTrees
  import opened ConstraintProjection

  /** On this column every value that the other constraint admits is admitted. */
  ghost predicate CoversColumn(c: Constraint, d: Constraint, col: Col) {
    forall v :: Relaxed(d, {col}, ConstRow(v)) ==> Relaxed(c, {col}, ConstRow(v))
  }

  /** The answer to "does c contain d", as a function of the two constraints; a missing d means no constraint. */
  ghost predicate Answer(c: Constraint, d: Option<Constraint>) {
    IsUnbounded(c) ||
    (d.Some? && !IsUnbounded(d.value) && forall col :: col in Cols(c) ==> CoversColumn(c, d.value, col))
  }

  class MemoConstraint {
    const tree: Constraint
    var memo: map<MemoConstraint, bool>

    /** Every remembered answer is the one that would be computed now. */
    ghost predicate Valid()
      reads this
    {
      && Constraints.Valid(tree)
      && forall d :: d in memo ==> (memo[d] <==> Answer(tree, Some(d.tree)))
    }

    constructor (tree: Constraint)
      requires Constraints.Valid(tree)
      ensures Valid() && this.tree == tree && memo == map[]
    {
      this.tree := tree;
      memo := map[];
    }

    /** Answers from the table if it can; whatever was asked before, the answer is the computed one. */
    method Contains(other: MemoConstraint?, arrays: bool) returns (contains: bool)
      requires Valid() && (other != null ==> Constraints.Valid(other.tree))
      modifies this
      ensures Valid()
      ensures contains <==> Answer(tree, if other == null then None else Some(other.tree))
      ensures other == null || IsUnbounded(other.tree) ==> (contains <==> IsUnbounded(tree))
      ensures forall d :: d in old(memo) ==> d in memo && memo[d] == old(memo)[d]
      ensures forall d :: d in memo ==> d in old(memo) || d == other
      ensures other != null && other != this && !IsUnbounded(tree) && !IsUnbounded(other.tree) ==> other in memo
    {
      if IsUnbounded(tree) {
        return true;
      }
      if other == null || IsUnbounded(other.tree) {
        return false;
      }
      if this == other {
        return true;
      }
      if other in memo {
        return memo[other];
      }
      contains := true;
      var todo := Cols(tree);
      while contains && todo != {}
        invariant todo <= Cols(tree)
        invariant contains ==> forall col :: col in Cols(tree) - todo ==> CoversColumn(tree, other.tree, col)
        invariant !contains ==> exists col :: col in Cols(tree) && !CoversColumn(tree, other.tree, col)
        invariant memo == old(memo)
        decreases |todo|
      {
        var col :| col in todo;
        contains := ColumnContained(tree, other.tree, col, arrays);
        todo := todo - {col};
      }
      memo := memo[other := contains];
    }
  }

  /** The test for one column: project both sides, convert to intervals, compare. */
  method ColumnContained(c: Constraint, d: Constraint, col: Col, arrays: bool) returns (contained: bool)
    requires Valid(c) && Valid(d)
    ensures contained <==> CoversColumn(c, d, col)
  {
    var cCol := ProjectColumn(c, col, arrays);
    var dCol := ProjectColumn(d, col, arrays);
    var ci := ToInterval(cCol, col, arrays);
    var di := ToInterval(dCol, col, arrays);
    contained := ContainsInterval(ci, di);
    forall v
      ensures ci.Has(v) <==> Relaxed(c, {col}, ConstRow(v))
      ensures di.Has(v) <==> Relaxed(d, {col}, ConstRow(v))
    {
    }
  }

  // ----- what yes means -----

  /** In every column the row has a value that the constraint, relaxed to that column, admits. */
  ghost predicate FitsColumns(c: Constraint, row: Row) {
    forall col :: col in Cols(c) ==> Relaxed(c, {col}, ConstRow(row(col)))
  }

  /** The rows of the constraint are all combinations of the values that its columns admit one by one. */
  ghost predicate IsProduct(c: Constraint) {
    forall row: Row :: FitsColumns(c, row) ==> Sat(c, row)
  }

  ghost predicate RowsIncluded(d: Constraint, c: Constraint) {
    forall row: Row :: Sat(d, row) ==> Sat(c, row)
  }

  /** As receiver the constraint says yes only where it admits every row of the other. */
  ghost predicate SoundReceiver(c: Constraint) {
    forall d :: Valid(d) && Answer(c, Some(d)) ==> RowsIncluded(d, c)
  }

  lemma SatFitsColumns(c: Constraint, row: Row)
    requires Sat(c, row)
    ensures forall col :: Relaxed(c, {col}, ConstRow(row(col)))
  {
    forall col
      ensures Relaxed(c, {col}, ConstRow(row(col)))
    {
      RelaxedSound(c, {col}, row);
      RelaxedDependsOnCols(c, {col}, row, ConstRow(row(col)));
    }
  }

  /** Soundness: a product that answers yes admits every row of the other constraint. */
  lemma ContainsSound(c: Constraint, d: Constraint, row: Row)
    requires Valid(c) && IsProduct(c) && Answer(c, Some(d)) && Sat(d, row)
    ensures Sat(c, row)
  {
    if IsUnbounded(c) {
      UnboundedSat(c);
    } else {
      SatFitsColumns(d, row);
      forall col | col in Cols(c)
        ensures Relaxed(c, {col}, ConstRow(row(col)))
      {
        assert CoversColumn(c, d, col);
      }
    }
  }

  /** The interval of one value. */
  function Point(v: Value): (i: Interval)
    ensures i.Canonical() && forall w :: i.Has(w) <==> w == v
  {
    if v.Null? then Interval([], true)
    else
      var r := Range(Some(v.x), true, Some(v.x), true);
      assert [r][0].Has(v.x);
      Interval([r], false)
  }

  /** The columns of a set, listed. */
  lemma {:induction false} ListColumns(cols: set<Col>) returns (list: seq<Col>)
    ensures forall col :: col in list <==> col in cols
  {
    if cols == {} {
      list := [];
    } else {
      var col :| col in cols;
      var rest := ListColumns(cols - {col});
      list := [col] + rest;
    }
  }

  /** A conjunction that pins each listed column to the row's value. */
  function Pinned(list: seq<Col>, row: Row): Constraint {
    Conj(seq(|list|, k requires 0 <= k < |list| => Leaf(list[k], Point(row(list[k])))))
  }

  lemma PinnedMeans(list: seq<Col>, row: Row, col: Col, v: Value)
    requires list != []
    ensures Valid(Pinned(list, row)) && Sat(Pinned(list, row), row)
    ensures col in list && Relaxed(Pinned(list, row), {col}, ConstRow(v)) ==> v == row(col)
  {
    var parts := Pinned(list, row).parts;
    assert forall k :: 0 <= k < |list| ==> parts[k] == Leaf(list[k], Point(row(list[k])));
    if col in list && Relaxed(Pinned(list, row), {col}, ConstRow(v)) {
      var k :| 0 <= k < |list| && list[k] == col;
      assert Relaxed(parts[k], {col}, ConstRow(v));
    }
  }

  /** A row that fits every column of c gives a constraint to which c says yes. */
  lemma FittingRowContained(c: Constraint, row: Row) returns (d: Constraint)
    requires Valid(c) && FitsColumns(c, row)
    ensures Valid(d) && Sat(d, row) && Answer(c, Some(d))
  {
    var list := ListColumns(Cols(c));
    ColsNonEmpty(c);
    var some :| some in Cols(c);
    assert some in list;
    d := Pinned(list, row);
    PinnedMeans(list, row, some, row(some));
    forall col | col in Cols(c)
      ensures CoversColumn(c, d, col)
    {
      forall v | Relaxed(d, {col}, ConstRow(v))
        ensures Relaxed(c, {col}, ConstRow(v))
      {
        PinnedMeans(list, row, col, v);
      }
    }
  }

  /** Yes is right for every argument if and only if the receiver is a product of its columns. */
  lemma SoundIffProduct(c: Constraint)
    requires Valid(c)
    ensures SoundReceiver(c) <==> IsProduct(c)
  {
    if IsProduct(c) {
      forall d, row: Row | Valid(d) && Answer(c, Some(d)) && Sat(d, row)
        ensures Sat(c, row)
      {
        ContainsSound(c, d, row);
      }
    }
    if SoundReceiver(c) {
      forall row: Row | FitsColumns(c, row)
        ensures Sat(c, row)
      {
        var d := FittingRowContained(c, row);
        assert RowsIncluded(d, c);
      }
    }
  }

  // ----- which constraints are products -----

  /** A constraint on a single column, of any shape, is one. */
  lemma SingleColumnProduct(c: Constraint)
    requires |Cols(c)| == 1
    ensures IsProduct(c)
  {
    var col :| col in Cols(c);
    SingletonSet(Cols(c), col);
    forall row: Row | FitsColumns(c, row)
      ensures Sat(c, row)
    {
      RelaxedWithin(c, {col}, ConstRow(row(col)));
      SatSingleColumn(c, col, row);
    }
  }

  /** So is a conjunction whose parts are each on one column. */
  lemma ConjunctionProduct(c: Constraint)
    requires c.Conj? && forall k :: 0 <= k < |c.parts| ==> |Cols(c.parts[k])| == 1
    ensures IsProduct(c)
  {
    forall row: Row, k | FitsColumns(c, row) && 0 <= k < |c.parts|
      ensures Sat(c.parts[k], row)
    {
      var col :| col in Cols(c.parts[k]);
      SingletonCols(c.parts[k], col);
      ColsOfSubset(c.parts, k);
      assert Relaxed(c.parts[k], {col}, ConstRow(row(col)));
      RelaxedWithin(c.parts[k], {col}, ConstRow(row(col)));
      SatSingleColumn(c.parts[k], col, row);
    }
  }

  /** A disjunction in which every column is missing from some part. */
  predicate Scattered(c: Constraint) {
    c.Disj? && forall col :: col in Cols(c) ==> exists k :: 0 <= k < |c.parts| && col !in Cols(c.parts[k])
  }

  ghost predicate HoldsEverywhere(c: Constraint) {
    forall row: Row :: Sat(c, row)
  }

  /** It says yes to everything that is not unbounded; so it is sound only if it holds on every row. */
  lemma ScatteredAnswersYes(c: Constraint)
    requires Valid(c) && Scattered(c)
    ensures forall d :: !IsUnbounded(d) ==> Answer(c, Some(d))
    ensures SoundReceiver(c) <==> HoldsEverywhere(c)
  {
    forall col, v | col in Cols(c)
      ensures Relaxed(c, {col}, ConstRow(v))
    {
      var k :| 0 <= k < |c.parts| && col !in Cols(c.parts[k]);
      RelaxedDisjoint(c.parts[k], {col}, ConstRow(v));
    }
    assert forall d, col :: col in Cols(c) ==> CoversColumn(c, d, col);
    SoundIffProduct(c);
    if IsProduct(c) {
      forall row: Row
        ensures Sat(c, row)
      {
        assert FitsColumns(c, row);
      }
    }
  }

  /** For instance, (a = 0 OR b = 0) claims to contain constraints none of whose rows it admits. */
  lemma DisjunctionAnswersWrongly()
    ensures exists c: Constraint, d: Constraint, row: Row ::
              Valid(c) && Valid(d) && Answer(c, Some(d)) && Sat(d, row) && !Sat(c, row)
  {
    var c := Disj([Leaf(0, Point(Val(0.0))), Leaf(1, Point(Val(0.0)))]);
    assert Scattered(c) by {
      assert 1 !in Cols(c.parts[0]) && 0 !in Cols(c.parts[1]);
    }
    ScatteredAnswersYes(c);
    assert !Sat(c, ConstRow(Null));
    var d :| Valid(d) && Answer(c, Some(d)) && !RowsIncluded(d, c);
  }

  /** A missing constraint is one that admits everything. */
  lemma MissingAsUnbounded(c: Constraint, d: Constraint)
    requires IsUnbounded(d)
    ensures Answer(c, None) <==> Answer(c, Some(d))
    ensures Answer(c, None) <==> IsUnbounded(c)
  {
  }

  // ----- what no means -----

  /** Every value that the constraint, relaxed to a column, admits there is the value of some row. */
  ghost predicate Extends(d: Constraint) {
    forall col, v :: Relaxed(d, {col}, ConstRow(v)) ==> exists row: Row :: Sat(d, row) && row(col) == v
  }

  /** As argument the constraint is told no only by receivers that lack one of its rows. */
  ghost predicate CompleteArgument(d: Constraint) {
    forall c :: Valid(c) && RowsIncluded(d, c) ==> Answer(c, Some(d))
  }

  /** Completeness: whatever the receiver is, inclusion of the rows of d gets the answer yes. */
  lemma ContainsComplete(c: Constraint, d: Constraint)
    requires !IsUnbounded(d) && Extends(d) && RowsIncluded(d, c)
    ensures Answer(c, Some(d))
  {
    forall col, v | col in Cols(c) && Relaxed(d, {col}, ConstRow(v))
      ensures Relaxed(c, {col}, ConstRow(v))
    {
      var row: Row :| Sat(d, row) && row(col) == v;
      SatFitsColumns(c, row);
    }
    assert forall col :: col in Cols(c) ==> CoversColumn(c, d, col);
  }

  /** A value that no row of d has in the column is left out by a constraint that admits all of them. */
  lemma UnusedValueRefused(d: Constraint, col: Col, v: Value) returns (c: Constraint)
    requires Relaxed(d, {col}, ConstRow(v)) && forall row: Row :: Sat(d, row) ==> row(col) != v
    ensures Valid(c) && RowsIncluded(d, c) && !Answer(c, Some(d))
  {
    var others := AllBut(v);
    c := Leaf(col, others);
    UnboundedMeaning(others);
    assert !Relaxed(c, {col}, ConstRow(v));
    assert !CoversColumn(c, d, col);
  }

  /** The canonical interval of all values except one. */
  lemma AllBut(v: Value) returns (i: Interval)
    ensures i.Canonical() && forall w :: i.Has(w) <==> w != v
  {
    if v.Null? {
      i := Unbounded(false);
    } else {
      var rs := [Range(None, false, Some(v.x), false), Range(Some(v.x), false, None, false)];
      assert forall x :: (x < v.x ==> rs[0].Has(x)) && (x > v.x ==> rs[1].Has(x));
      i := Interval(rs, true);
    }
  }

  /** No is right for every receiver if and only if the argument is not unbounded and uses all its values. */
  lemma CompleteIffExtends(d: Constraint)
    requires Valid(d)
    ensures CompleteArgument(d) <==> !IsUnbounded(d) && Extends(d)
  {
    if !IsUnbounded(d) && Extends(d) {
      forall c | Valid(c) && RowsIncluded(d, c) { ContainsComplete(c, d); }
    } else if IsUnbounded(d) {
      UnboundedSat(d);
      var c := Conj([d]);
      assert c.parts[0] == d;
      assert Valid(c) && RowsIncluded(d, c) && !Answer(c, Some(d));
    } else {
      var col, v :| Relaxed(d, {col}, ConstRow(v)) && !exists row: Row :: Sat(d, row) && row(col) == v;
      var c := UnusedValueRefused(d, col, v);
    }
  }

  /** A satisfiable product uses all its values: one column can change while the others stay. */
  lemma ProductExtends(d: Constraint, inhabitant: Row)
    requires IsProduct(d) && Sat(d, inhabitant)
    ensures Extends(d)
  {
    SatFitsColumns(d, inhabitant);
    forall col, v | Relaxed(d, {col}, ConstRow(v))
      ensures exists row: Row :: Sat(d, row) && row(col) == v
    {
      var changed: Row := (k: Col) => if k == col then v else inhabitant(k);
      assert FitsColumns(d, changed);
      assert Sat(d, changed) && changed(col) == v;
    }
  }

  /** Exactness: between a product and a satisfiable, not unbounded product the answer is inclusion of rows. */
  lemma ContainsExact(c: Constraint, d: Constraint, inhabitant: Row)
    requires Valid(c) && Valid(d) && IsProduct(c) && IsProduct(d) && !IsUnbounded(d) && Sat(d, inhabitant)
    ensures Answer(c, Some(d)) <==> RowsIncluded(d, c)
  {
    if Answer(c, Some(d)) {
      SoundIffProduct(c);
    }
    if RowsIncluded(d, c) {
      ProductExtends(d, inhabitant);
      ContainsComplete(c, d);
    }
  }
}
