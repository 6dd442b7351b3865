/**
  The second way to a constraint from an array comparison (CConstraint::PcnstrFromScalarArrayCmp):
  one interval for each constant, put together by a disjunction for ANY and a conjunction for ALL.
 */
module ArrayExpansion {
  import opened Options
  import opened Ranges
  import opened Intervals
  import opened IntervalCompiler
  import opened Predicates
  import opened Constraints
  import opened ConstraintTrees

  /** The constants as array elements, none of them NULL. */
  function Items(constants: seq<Datum>): (items: seq<Option<Datum>>)
    ensures |items| == |constants| && forall k :: 0 <= k < |items| ==> items[k] == Some(constants[k])
  {
    seq(|constants|, k requires 0 <= k < |constants| => Some(constants[k]))
  }

  /** The interval of one comparison holds exactly the values for which the comparison is wanted. */
  ghost predicate PartFor(c: Constraint, col: Col, op: CmpOp, constant: Datum, infer: bool) {
    c == Leaf(col, Interval(CmpRanges(op, constant), infer))
  }

  lemma PartMeans(c: Constraint, col: Col, op: CmpOp, constant: Datum, infer: bool, row: Row)
    requires PartFor(c, col, op, constant, infer)
    ensures Valid(c) && Cols(c) == {col}
    ensures Sat(c, row) <==> Wanted(infer, CompareItem(op, row(col), Some(constant)))
  {
  }

  /**
    The expansion is exact for every operator and both quantifiers, which the sorted-set form is
    not; beyond the threshold, and for ALL over an empty array, there is no constraint.
   */
  method ExpandArray(col: Col, op: CmpOp, quant: Quantifier, constants: seq<Datum>, threshold: nat, infer: bool, arrays: bool)
    returns (r: Option<Constraint>)
    ensures r.Some? <==> |constants| <= threshold && !(constants == [] && quant == All)
    ensures r.Some? ==> Valid(r.value) && Cols(r.value) == {col}
    ensures r.Some? ==> forall row: Row ::
              Sat(r.value, row) <==> Wanted(infer, EvalArray(op, quant, Items(constants), row(col)))
  {
    if |constants| > threshold {
      return None;
    }
    if |constants| == 0 {
      if quant == Any {
        return Some(Leaf(col, Interval([], false)));
      }
      return None;
    }
    var parts := ExpandParts(col, op, constants, infer);
    var c := Construct(quant == All, parts, arrays);
    r := Some(c);
    forall row: Row
      ensures Sat(c, row) <==> Wanted(infer, EvalArray(op, quant, Items(constants), row(col)))
    {
      PartsMean(parts, col, op, quant, constants, infer, row);
    }
  }

  /** One interval for each constant. */
  method ExpandParts(col: Col, op: CmpOp, constants: seq<Datum>, infer: bool) returns (parts: seq<Constraint>)
    requires |constants| > 0
    ensures |parts| == |constants| && ValidParts(parts) && ColsOf(parts) == {col}
    ensures forall m :: 0 <= m < |parts| ==> PartFor(parts[m], col, op, constants[m], infer)
  {
    parts := [];
    for k := 0 to |constants|
      invariant |parts| == k
      invariant forall m :: 0 <= m < k ==> PartFor(parts[m], col, op, constants[m], infer)
    {
      parts := parts + [Leaf(col, Interval(CmpRanges(op, constants[k]), infer))];
    }
    PartsOnColumn(parts, col);
  }

  lemma PartsOnColumn(parts: seq<Constraint>, col: Col)
    requires |parts| > 0 && forall m :: 0 <= m < |parts| ==> Cols(parts[m]) == {col}
    ensures ColsOf(parts) == {col}
  {
    forall other
      ensures other in ColsOf(parts) <==> other == col
    {
      ColsOfMember(parts, other);
      assert Cols(parts[0]) == {col};
    }
  }

  lemma PartsMean(parts: seq<Constraint>, col: Col, op: CmpOp, quant: Quantifier, constants: seq<Datum>, infer: bool, row: Row)
    requires |parts| == |constants| && forall m :: 0 <= m < |parts| ==> PartFor(parts[m], col, op, constants[m], infer)
    ensures Sat(Node(quant == All, parts), row) <==> Wanted(infer, EvalArray(op, quant, Items(constants), row(col)))
  {
    ArrayWanted(op, quant, Items(constants), infer, row(col));
    forall m | 0 <= m < |parts|
      ensures Sat(parts[m], row) <==> Wanted(infer, CompareItem(op, row(col), Items(constants)[m]))
    {
      PartMeans(parts[m], col, op, constants[m], infer, row);
    }
  }

  /**
    Where the sorted-set form is in scope, both ways lead to the same list of ranges: the interval
    compiled from the array and any canonical interval with the values of the expansion are equal.
   */
  lemma ExpansionEqualsSortedSet(col: Col, op: CmpOp, quant: Quantifier, constants: seq<Datum>, infer: bool,
                                 expanded: Constraint, viaExpansion: Interval, viaSet: Interval)
    requires constants != [] && (op == Eq || op == Neq) && ArrayScoped(op, quant, Items(constants), infer)
    requires forall row: Row :: Sat(expanded, row) <==> Wanted(infer, EvalArray(op, quant, Items(constants), row(col)))
    requires viaExpansion.Canonical() && forall v :: viaExpansion.Has(v) <==> Sat(expanded, ConstRow(v))
    requires Compiled(viaSet, ArrayCmp(op, quant, Items(constants)), true, infer)
    ensures viaExpansion == viaSet
  {
    assert Items(constants)[0].Some?;
    ArrayScopedExact(op, quant, Items(constants), infer);
    forall v
      ensures viaExpansion.Has(v) <==> viaSet.Has(v)
    {
      assert Sat(expanded, ConstRow(v)) <==> Wanted(infer, EvalArray(op, quant, Items(constants), ConstRow(v)(col)));
      assert Selects(ArrayCmp(op, quant, Items(constants)), true, infer, v) <==> Wanted(infer, EvalArray(op, quant, Items(constants), v));
    }
    IntervalUnique(viaExpansion, viaSet);
  }
}
