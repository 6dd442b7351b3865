/**
  From a predicate to an interval and back: PciIntervalFromScalarExpr and its helpers, the sorted
  set of array constants (CDatumSortedSet), and PexprConstructScalar, which prints an interval as
  a disjunction of ranges or as an IN / NOT IN list.
 */
module IntervalCompiler {
  import opened Options
  import opened Ranges
  import opened Intervals
  import opened IntervalSweeps
  import opened Predicates
  import opened Connectives

  // ----- sorted sets of constants -----

  ghost predicate Ascending(xs: seq<Datum>) {
    forall i, j :: 0 <= i < j < |xs| ==> xs[i] <= xs[j]
  }

  ghost predicate StrictlyAscending(xs: seq<Datum>) {
    forall i, j :: 0 <= i < j < |xs| ==> xs[i] < xs[j]
  }

  /** Inserts a constant at its place in an ascending array. */
  function InsertSorted(xs: seq<Datum>, x: Datum): (out: seq<Datum>)
    requires Ascending(xs)
    ensures Ascending(out) && forall y :: y in out <==> y in xs || y == x
  {
    if xs == [] || x <= xs[0] then [x] + xs
    else
      var rest := InsertSorted(xs[1..], x);
      assert forall k :: 0 <= k < |rest| ==> rest[k] in rest;
      assert forall y :: y in xs <==> y == xs[0] || y in xs[1..];
      [xs[0]] + rest
  }

  /** Removes repetitions from an ascending array. */
  method Distinct(sorted: seq<Datum>) returns (out: seq<Datum>)
    requires |sorted| > 0 && Ascending(sorted)
    ensures |out| > 0 && StrictlyAscending(out)
    ensures forall x :: x in out <==> x in sorted
  {
    var prev := sorted[0];
    out := [prev];
    for k := 1 to |sorted|
      invariant |out| > 0 && prev == sorted[k - 1] == out[|out| - 1]
      invariant StrictlyAscending(out)
      invariant forall x :: x in out <==> x in sorted[..k]
    {
      assert sorted[..k + 1] == sorted[..k] + [sorted[k]];
      if sorted[k] != prev {
        prev := sorted[k];
        out := out + [prev];
      }
    }
    assert sorted[..|sorted|] == sorted;
  }

  /** Drops the NULLs of an array of constants, sorts the rest, and removes repetitions. */
  method SortedDistinct(items: seq<Option<Datum>>) returns (out: seq<Datum>, includesNull: bool)
    requires exists k :: 0 <= k < |items| && items[k].Some?
    ensures |out| > 0 && StrictlyAscending(out)
    ensures forall x :: x in out <==> Some(x) in items
    ensures includesNull <==> None in items
  {
    var sorted: seq<Datum> := [];
    includesNull := false;
    for k := 0 to |items|
      invariant Ascending(sorted)
      invariant forall x :: x in sorted ==> Some(x) in items
      invariant forall m :: 0 <= m < k && items[m].Some? ==> items[m].value in sorted
      invariant includesNull <==> exists m :: 0 <= m < k && items[m].None?
    {
      if items[k].None? {
        includesNull := true;
      } else {
        sorted := InsertSorted(sorted, items[k].value);
      }
    }
    ghost var some :| 0 <= some < |items| && items[some].Some?;
    assert items[some].value in sorted;
    out := Distinct(sorted);
  }

  // ----- the two range patterns of array comparisons -----

  /** Each constant as a range of its own. */
  ghost predicate InPattern(rs: seq<Range>, ds: seq<Datum>) {
    |rs| == |ds| && forall k :: 0 <= k < |rs| ==> rs[k] == Range(Some(ds[k]), true, Some(ds[k]), true)
  }

  /** The open gaps in front of, between and behind the constants. */
  ghost predicate NotInPattern(rs: seq<Range>, ds: seq<Datum>) {
    && |rs| == |ds| + 1
    && forall k :: 0 <= k < |rs| ==> rs[k] == GapRange(ds, k)
  }

  function GapRange(ds: seq<Datum>, k: nat): Range
    requires k <= |ds|
  {
    Range(if k == 0 then None else Some(ds[k - 1]), false, if k == |ds| then None else Some(ds[k]), false)
  }

  lemma InPatternMembers(rs: seq<Range>, ds: seq<Datum>)
    requires InPattern(rs, ds)
    ensures StrictlyAscending(ds) ==> CanonicalList(rs)
    ensures forall x :: Member(rs, x) <==> x in ds
  {
    forall x
      ensures Member(rs, x) <==> x in ds
    {
      if x in ds {
        var k :| 0 <= k < |ds| && ds[k] == x;
        assert rs[k].Has(x);
      }
    }
  }

  lemma NotInPatternMembers(rs: seq<Range>, ds: seq<Datum>)
    requires NotInPattern(rs, ds) && StrictlyAscending(ds)
    ensures CanonicalList(rs)
    ensures forall x :: Member(rs, x) <==> x !in ds
  {
    forall x
      ensures Member(rs, x) <==> x !in ds
    {
      if x !in ds {
        var k := CountBelow(ds, x);
        assert rs[k].Has(x);
      }
    }
  }

  /** Where x belongs in an ascending list that does not hold it. */
  lemma {:induction false} CountBelow(ds: seq<Datum>, x: Datum) returns (k: nat)
    requires StrictlyAscending(ds) && x !in ds
    ensures k <= |ds|
    ensures forall m :: 0 <= m < k ==> ds[m] < x
    ensures forall m :: k <= m < |ds| ==> x < ds[m]
  {
    if |ds| == 0 || ds[|ds| - 1] < x {
      k := |ds|;
    } else {
      k := CountBelow(ds[..|ds| - 1], x);
      assert ds[|ds| - 1] != x;
    }
  }

  // ----- leaves -----

  function CmpRange(op: CmpOp, c: Datum): (r: Range)
    requires op != Neq
    ensures r.Valid() && forall x :: r.Has(x) <==> Compare(op, x, c)
  {
    match op
    case Eq => Range(Some(c), true, Some(c), true)
    case Lt => Range(None, false, Some(c), false)
    case Le => Range(None, false, Some(c), true)
    case Gt => Range(Some(c), false, None, false)
    case Ge => Range(Some(c), true, None, false)
  }

  /** One range for an ordinary comparison, two around the constant for an inequality. */
  function CmpRanges(op: CmpOp, c: Datum): (rs: seq<Range>)
    ensures CanonicalList(rs) && forall x :: Member(rs, x) <==> Compare(op, x, c)
  {
    if op == Neq then
      var rs := [CmpRange(Lt, c), CmpRange(Gt, c)];
      assert forall x :: (x < c ==> rs[0].Has(x)) && (x > c ==> rs[1].Has(x));
      rs
    else
      var rs := [CmpRange(op, c)];
      assert forall x :: Compare(op, x, c) ==> rs[0].Has(x);
      rs
  }

  method ArrayRanges(op: CmpOp, ds: seq<Datum>) returns (rs: seq<Range>)
    requires (op == Eq || op == Neq) && |ds| > 0 && StrictlyAscending(ds)
    ensures op == Eq ==> InPattern(rs, ds)
    ensures op == Neq ==> NotInPattern(rs, ds)
  {
    rs := [];
    if op == Eq {
      for k := 0 to |ds|
        invariant InPattern(rs, ds[..k])
      {
        rs := rs + [CmpRange(Eq, ds[k])];
      }
      assert ds[..|ds|] == ds;
    } else {
      var prev: Option<Datum> := None;
      for k := 0 to |ds|
        invariant prev == if k == 0 then None else Some(ds[k - 1])
        invariant |rs| == k && forall m :: 0 <= m < k ==> rs[m] == GapRange(ds, m)
      {
        rs := rs + [Range(prev, false, Some(ds[k]), false)];
        prev := Some(ds[k]);
      }
      rs := rs + [Range(prev, false, None, false)];
    }
  }

  // ----- the compiler -----

  /** The interval is canonical and holds exactly the selected values. */
  ghost predicate Compiled(i: Interval, e: Pred, arrays: bool, infer: bool) {
    i.Canonical() && forall v :: i.Has(v) <==> Selects(e, arrays, infer, v)
  }

  method FromArrayCmp(op: CmpOp, quant: Quantifier, items: seq<Option<Datum>>, infer: bool) returns (r: Option<Interval>)
    requires WellFormed(ArrayCmp(op, quant, items))
    ensures r.Some? <==> Converts(ArrayCmp(op, quant, items), true)
    ensures r.Some? ==> Compiled(r.value, ArrayCmp(op, quant, items), true, infer)
    ensures r.Some? <==> items != [] && (op == Eq || op == Neq)
    ensures r.Some? ==> r.value.nulls == infer && forall x :: r.value.Has(Val(x)) <==> (op == Eq <==> Some(x) in items)
  {
    if items == [] {
      return None;
    }
    var ds, includesNull := SortedDistinct(items);
    if op != Eq && op != Neq {
      return None;
    }
    var rs := ArrayRanges(op, ds);
    if op == Eq {
      InPatternMembers(rs, ds);
    } else {
      NotInPatternMembers(rs, ds);
    }
    r := Some(Interval(rs, infer));
  }

  /** Every value for which the predicate is wanted is in the interval, in whatever environment. */
  ghost predicate HasAllWanted(i: Interval, e: Pred, infer: bool) {
    forall env: Env, v :: Wanted(infer, Eval(e, env, v)) ==> i.Has(v)
  }

  ghost predicate HasOnlyWanted(i: Interval, e: Pred, infer: bool) {
    forall env: Env, v :: i.Has(v) ==> Wanted(infer, Eval(e, env, v))
  }

  lemma CompiledMeaning(i: Interval, e: Pred, arrays: bool, infer: bool)
    requires WellFormed(e) && Compiled(i, e, arrays, infer)
    ensures Scoped(e, arrays, infer) ==> HasAllWanted(i, e, infer) && HasOnlyWanted(i, e, infer)
    ensures OneSided(e, arrays, infer, true) ==> HasAllWanted(i, e, infer)
    ensures OneSided(e, arrays, infer, false) ==> HasOnlyWanted(i, e, infer)
  {
    if Scoped(e, arrays, infer) {
      ScopedOneSided(e, arrays, infer, true);
      ScopedOneSided(e, arrays, infer, false);
    }
    forall env: Env, v
      ensures OneSided(e, arrays, infer, true) && Wanted(infer, Eval(e, env, v)) ==> i.Has(v)
      ensures OneSided(e, arrays, infer, false) && i.Has(v) ==> Wanted(infer, Eval(e, env, v))
    {
      if OneSided(e, arrays, infer, true) {
        SelectsOneSided(e, arrays, infer, true, env, v);
      }
      if OneSided(e, arrays, infer, false) {
        SelectsOneSided(e, arrays, infer, false, env, v);
      }
    }
  }

  /** The interval holds all, or only, the values wanted in one particular environment. */
  ghost predicate HasAllWantedIn(i: Interval, e: Pred, infer: bool, env: Env) {
    forall v :: Wanted(infer, Eval(e, env, v)) ==> i.Has(v)
  }

  ghost predicate HasOnlyWantedIn(i: Interval, e: Pred, infer: bool, env: Env) {
    forall v :: i.Has(v) ==> Wanted(infer, Eval(e, env, v))
  }

  /** With all opaque parts on one side of the negations, one environment stands for all. */
  lemma WantedInOneEnvironment(i: Interval, e: Pred, even: bool, infer: bool)
    requires OpaqueAt(e, even)
    ensures HasAllWanted(i, e, infer) <==> HasAllWantedIn(i, e, infer, Everywhere(Truly(even)))
    ensures HasOnlyWanted(i, e, infer) <==> HasOnlyWantedIn(i, e, infer, Everywhere(Truly(!even)))
  {
    forall env: Env, v
      ensures Wanted(infer, Eval(e, env, v)) ==> Wanted(infer, Eval(e, Everywhere(Truly(even)), v))
      ensures Wanted(infer, Eval(e, Everywhere(Truly(!even)), v)) ==> Wanted(infer, Eval(e, env, v))
    {
      WantedBounds(e, even, infer, env, v);
    }
  }

  /** What a result, or no result, says about a predicate with opaque parts; not in terms of what converts. */
  lemma ResultMeaning(r: Option<Interval>, e: Pred, arrays: bool, infer: bool)
    requires WellFormed(e) && (r.Some? <==> Converts(e, arrays)) && (r.Some? ==> Compiled(r.value, e, arrays, infer))
    ensures r.Some? && SafeToDrop(e, arrays, infer, true) ==> HasAllWanted(r.value, e, infer)
    ensures r.Some? && SafeToDrop(e, arrays, infer, false) ==> HasOnlyWanted(r.value, e, infer)
    ensures r.None? && Unnegated(e, arrays, infer) ==> forall v :: Eval(e, Everywhere(True), v) == True
  {
    if r.Some? {
      CompiledMeaning(r.value, e, arrays, infer);
      if SafeToDrop(e, arrays, infer, true) {
        SafeOneSided(e, arrays, infer, true);
      }
      if SafeToDrop(e, arrays, infer, false) {
        SafeOneSided(e, arrays, infer, false);
      }
    } else if Unnegated(e, arrays, infer) {
      forall v { GivenUpTellsNothing(e, arrays, infer, v); }
    }
  }

  /** A disjunction with an opaque disjunct is given up; a conjunction with a conjunct in scope is not. */
  lemma OpaqueResults(e: Pred, arrays: bool, infer: bool)
    ensures e.Or? && HasOpaque(e.args) ==> !Converts(e, arrays)
    ensures e.And? && (exists k :: 0 <= k < |e.args| && Scoped(e.args[k], arrays, infer)) ==> Converts(e, arrays)
  {
    if e.And? {
      if k :| 0 <= k < |e.args| && Scoped(e.args[k], arrays, infer) {
        ScopedConverts(e.args[k], arrays, infer);
      }
    }
  }

  /**
    The compiler. In scope it always succeeds, with exactly the wanted values; where conjuncts are
    left out, it misses nothing or adds nothing, depending on the negations above the conjunction;
    and without negations it gives up only what may be true of every value.
   */
  method FromExpr(e: Pred, arrays: bool, infer: bool) returns (r: Option<Interval>)
    requires WellFormed(e)
    ensures r.Some? <==> Converts(e, arrays)
    ensures r.Some? ==> Compiled(r.value, e, arrays, infer)
    ensures Scoped(e, arrays, infer) ==> r.Some? && HasAllWanted(r.value, e, infer) && HasOnlyWanted(r.value, e, infer)
    ensures r.Some? && OneSided(e, arrays, infer, true) ==> HasAllWanted(r.value, e, infer)
    ensures r.Some? && OneSided(e, arrays, infer, false) ==> HasOnlyWanted(r.value, e, infer)
    ensures r.Some? && SafeToDrop(e, arrays, infer, true) ==> HasAllWanted(r.value, e, infer)
    ensures r.Some? && SafeToDrop(e, arrays, infer, false) ==> HasOnlyWanted(r.value, e, infer)
    ensures r.None? && Unnegated(e, arrays, infer) ==> forall v :: Eval(e, Everywhere(True), v) == True
    ensures e.Opaque? || (e.Or? && HasOpaque(e.args)) ==> r.None?
    ensures e.And? && (exists k :: 0 <= k < |e.args| && Scoped(e.args[k], arrays, infer)) ==> r.Some?
  {
    r := FromNode(e, arrays, infer);
    OpaqueResults(e, arrays, infer);
    ResultMeaning(r, e, arrays, infer);
    if r.Some? {
      CompiledMeaning(r.value, e, arrays, infer);
    }
    if Scoped(e, arrays, infer) {
      ScopedConverts(e, arrays, infer);
    }
  }

  /** The recursion behind it, by the kind of the predicate. */
  method FromNode(e: Pred, arrays: bool, infer: bool) returns (r: Option<Interval>)
    requires WellFormed(e)
    ensures r.Some? <==> Converts(e, arrays)
    ensures r.Some? ==> Compiled(r.value, e, arrays, infer)
    decreases e, 1
  {
    match e {
      case IsNull =>
        r := Some(Interval([], true));
      case Cmp(op, c) =>
        r := Some(Interval(CmpRanges(op, c), infer));
      case IsDistinctFrom(other) =>
        if other.None? {
          var notNull := Complement(Interval([], true));
          r := Some(notNull);
        } else {
          r := Some(Interval(CmpRanges(Neq, other.value), true));
        }
      case Const(b) =>
        r := Some(if b == True then Unbounded(true) else Interval([], false));
      case ArrayCmp(op, quant, items) =>
        if arrays {
          r := FromArrayCmp(op, quant, items, infer);
        } else {
          r := None;
        }
      case And(args) =>
        r := FromAnd(args, arrays, infer);
      case Or(args) =>
        r := FromOr(args, arrays, infer);
      case Not(arg) =>
        var child := FromNode(arg, arrays, !infer);
        if child.None? {
          r := None;
        } else {
          var negated := Complement(child.value);
          r := Some(negated);
        }
      case Opaque(_) =>
        r := None;
    }
  }

  /** The intersection of what converts among the first k conjuncts. */
  ghost predicate MetSoFar(r: Option<Interval>, args: seq<Pred>, k: nat, arrays: bool, infer: bool)
    requires k <= |args|
  {
    && (r.Some? <==> exists m :: 0 <= m < k && Converts(args[m], arrays))
    && (r.Some? ==> r.value.Canonical())
    && (r.Some? ==> forall v :: r.value.Has(v) <==>
          forall m :: 0 <= m < k && Converts(args[m], arrays) ==> Selects(args[m], arrays, infer, v))
  }

  lemma MeetNext(before: Option<Interval>, child: Option<Interval>, after: Option<Interval>,
                 args: seq<Pred>, k: nat, arrays: bool, infer: bool)
    requires k < |args| && MetSoFar(before, args, k, arrays, infer)
    requires (child.Some? <==> Converts(args[k], arrays)) && (child.Some? ==> Compiled(child.value, args[k], arrays, infer))
    requires if child.Some? && before.Some? then after.Some? && IntersectionOf(after.value, before.value, child.value)
             else after == if child.Some? then child else before
    ensures MetSoFar(after, args, k + 1, arrays, infer)
  {
    if after.Some? {
      forall v
        ensures after.value.Has(v) <==>
                forall m :: 0 <= m < k + 1 && Converts(args[m], arrays) ==> Selects(args[m], arrays, infer, v)
      {
      }
    }
  }

  lemma MeetFirst(r: Option<Interval>, args: seq<Pred>, arrays: bool, infer: bool)
    requires |args| > 0 && (r.Some? <==> Converts(args[0], arrays)) && (r.Some? ==> Compiled(r.value, args[0], arrays, infer))
    ensures MetSoFar(r, args, 1, arrays, infer)
  {
  }

  lemma MeetDone(r: Option<Interval>, args: seq<Pred>, arrays: bool, infer: bool)
    requires MetSoFar(r, args, |args|, arrays, infer)
    ensures r.Some? <==> Converts(And(args), arrays)
    ensures r.Some? ==> Compiled(r.value, And(args), arrays, infer)
    ensures (exists k :: 0 <= k < |args| && Scoped(args[k], arrays, infer)) ==> r.Some?
  {
    OpaqueResults(And(args), arrays, infer);
  }

  /** Intersects what converts and skips what does not. */
  method FromAnd(args: seq<Pred>, arrays: bool, infer: bool) returns (r: Option<Interval>)
    requires WellFormed(And(args))
    ensures r.Some? <==> Converts(And(args), arrays)
    ensures r.Some? ==> Compiled(r.value, And(args), arrays, infer)
    ensures (exists k :: 0 <= k < |args| && Scoped(args[k], arrays, infer)) ==> r.Some?
    decreases args, 0
  {
    r := FromNode(args[0], arrays, infer);
    MeetFirst(r, args, arrays, infer);
    for k := 1 to |args|
      invariant MetSoFar(r, args, k, arrays, infer)
    {
      ghost var before := r;
      var child := FromNode(args[k], arrays, infer);
      if child.Some? && r.Some? {
        var both := Intersect(r.value, child.value);
        r := Some(both);
      } else if child.Some? {
        r := child;
      }
      MeetNext(before, child, r, args, k, arrays, infer);
    }
    MeetDone(r, args, arrays, infer);
  }

  /** Fails if some argument does not convert; otherwise the balanced union of all of them. */
  method FromOr(args: seq<Pred>, arrays: bool, infer: bool) returns (r: Option<Interval>)
    requires WellFormed(Or(args))
    ensures r.Some? <==> Converts(Or(args), arrays)
    ensures r.Some? ==> Compiled(r.value, Or(args), arrays, infer)
    ensures HasOpaque(args) ==> r.None?
    decreases args, 0
  {
    OpaqueResults(Or(args), arrays, infer);
    var children: seq<Interval> := [];
    for k := 0 to |args|
      invariant |children| == k && AllCanonical(children)
      invariant forall m :: 0 <= m < k ==> Converts(args[m], arrays)
      invariant forall m, v :: 0 <= m < k ==> (children[m].Has(v) <==> Selects(args[m], arrays, infer, v))
    {
      var child := FromNode(args[k], arrays, infer);
      if child.None? {
        return None;
      }
      children := children + [child.value];
    }
    var union := UnionAll(children);
    r := Some(union);
  }

  // ----- printing an interval as a predicate -----

  predicate AllWellFormed(es: seq<Pred>) {
    forall k :: 0 <= k < |es| ==> WellFormed(es[k])
  }

  predicate AllScoped(es: seq<Pred>, arrays: bool) {
    forall k :: 0 <= k < |es| ==> Scoped(es[k], arrays, false)
  }

  function Connective(conj: bool, es: seq<Pred>): Pred {
    if conj then And(es) else Or(es)
  }

  function EvalList(conj: bool, es: seq<Pred>, env: Env, v: Value): Truth {
    if conj then EvalAnd(es, env, v) else EvalOr(es, env, v)
  }

  lemma {:induction false} EvalListTruth(conj: bool, es: seq<Pred>, env: Env, v: Value)
    ensures EvalList(conj, es, env, v) == TruthOf(conj, es, e => Eval(e, env, v))
  {
    if es != [] {
      EvalListTruth(conj, es[1..], env, v);
    }
  }

  lemma FoldedEval(conj: bool, es: seq<Pred>, join: seq<Pred> -> Pred, env: Env, v: Value)
    requires join(Without(es, Const(Truly(conj)))) == Connective(conj, Without(es, Const(Truly(conj))))
    ensures Eval(Folded(es, Const(Truly(conj)), Const(Truly(!conj)), join), env, v) == EvalList(conj, es, env, v)
  {
    EvalListTruth(conj, es, env, v);
    EvalListTruth(conj, Without(es, Const(Truly(conj))), env, v);
    FoldedTruth(conj, es, Const(Truly(conj)), Const(Truly(!conj)), join, e => Eval(e, env, v));
  }

  /** What is kept is part of the list, so it is well-formed and in scope if the list is. */
  lemma KeptFits(es: seq<Pred>, neutral: Pred)
    requires AllWellFormed(es)
    ensures AllWellFormed(Without(es, neutral))
    ensures forall arrays :: AllScoped(es, arrays) ==> AllScoped(Without(es, neutral), arrays)
  {
    var kept := Without(es, neutral);
    forall k | 0 <= k < |kept|
      ensures exists m :: 0 <= m < |es| && es[m] == kept[k]
    {
      assert kept[k] in kept;
    }
  }

  /** What is put together from it is, too. */
  lemma FoldedFits(conj: bool, es: seq<Pred>, join: seq<Pred> -> Pred)
    requires AllWellFormed(es)
    requires join(Without(es, Const(Truly(conj)))) == Connective(conj, Without(es, Const(Truly(conj))))
    ensures WellFormed(Folded(es, Const(Truly(conj)), Const(Truly(!conj)), join))
    ensures forall arrays :: AllScoped(es, arrays) ==>
              Scoped(Folded(es, Const(Truly(conj)), Const(Truly(!conj)), join), arrays, false)
  {
    KeptFits(es, Const(Truly(conj)));
    var kept := Without(es, Const(Truly(conj)));
    if |kept| > 0 {
      ConnectiveFits(conj, kept);
    }
  }

  lemma ConnectiveFits(conj: bool, es: seq<Pred>)
    requires AllWellFormed(es) && |es| > 0
    ensures WellFormed(Connective(conj, es))
    ensures forall arrays :: AllScoped(es, arrays) ==> Scoped(Connective(conj, es), arrays, false)
  {
  }

  /** Conjunction or disjunction of a list, without neutral constants and cut short by an absorbing one. */
  method ConnectPreds(es: seq<Pred>, conj: bool) returns (e: Pred)
    requires AllWellFormed(es)
    ensures WellFormed(e)
    ensures forall arrays :: AllScoped(es, arrays) ==> Scoped(e, arrays, false)
    ensures forall env, v :: Eval(e, env, v) == EvalList(conj, es, env, v)
    ensures es == [] ==> e == Const(Truly(conj))
    ensures |es| > 1 && (forall k :: 0 <= k < |es| ==> !es[k].Const?) ==> e == Connective(conj, es)
  {
    var join := kept => Connective(conj, kept);
    e := ConjDisj(es, Const(Truly(conj)), Const(Truly(!conj)), join);
    FoldedFits(conj, es, join);
    forall env, v
      ensures Eval(e, env, v) == EvalList(conj, es, env, v)
    {
      FoldedEval(conj, es, join, env, v);
    }
  }

  /** The predicate is true exactly of the values of the interval, and compiles exactly. */
  ghost predicate PrintsAs(e: Pred, i: Interval, arrays: bool) {
    && WellFormed(e) && Scoped(e, arrays, false)
    && forall env, v :: Eval(e, env, v) == True <==> i.Has(v)
  }

  /** The predicate is never true of NULL, and true of a constant exactly when the range holds it. */
  ghost predicate RangePrintsAs(e: Pred, r: Range) {
    && WellFormed(e) && (forall arrays :: Scoped(e, arrays, false))
    && (e == Const(True) <==> r.IsUnbounded())
    && (forall env, x :: Eval(e, env, Val(x)) == True <==> r.Has(x))
    && (!r.IsUnbounded() ==> forall env :: Eval(e, env, Null) != True)
  }

  /** The comparisons with the finite ends of a range. */
  function EndComparisons(r: Range): (parts: seq<Pred>) {
    (if r.left.Some? then [Cmp(if r.leftIncl then Ge else Gt, r.left.value)] else []) +
    (if r.right.Some? then [Cmp(if r.rightIncl then Le else Lt, r.right.value)] else [])
  }

  lemma EndComparisonsMean(r: Range, env: Env, v: Value)
    requires r.Valid()
    ensures EvalAnd(EndComparisons(r), env, v) == True <==> r.IsUnbounded() || (v.Val? && r.Has(v.x))
  {
    var parts := EndComparisons(r);
    AndWanted(parts, env, false, v);
    if v.Val? {
      assert r.left.Some? ==> Eval(parts[0], env, v) == Truly(r.PastLeft(v.x));
      assert r.right.Some? ==> Eval(parts[|parts| - 1], env, v) == Truly(r.BeforeRight(v.x));
    } else if |parts| > 0 {
      assert Eval(parts[0], env, v) == Unknown;
    }
  }

  method RangeExpr(r: Range) returns (e: Pred)
    requires r.Valid()
    ensures RangePrintsAs(e, r)
  {
    if r.left.Some? && r.right.Some? && r.left.value == r.right.value && r.leftIncl && r.rightIncl {
      return Cmp(Eq, r.left.value);
    }
    e := ConnectPreds(EndComparisons(r), true);
    forall env, v
      ensures Eval(e, env, v) == True <==> r.IsUnbounded() || (v.Val? && r.Has(v.x))
    {
      EndComparisonsMean(r, env, v);
    }
    ghost var env: Env := (_, _) => Unknown;
    assert Eval(e, env, Null) == True <==> r.IsUnbounded();
  }

  /** Are the ranges two or more points? */
  method ConvertsToIn(rs: seq<Range>) returns (isIn: bool)
    requires SortedList(rs)
    ensures isIn <==> |rs| > 1 && forall k :: 0 <= k < |rs| ==> rs[k].IsPoint()
  {
    if |rs| <= 1 {
      return false;
    }
    isIn := true;
    var k := 0;
    while k < |rs| && isIn
      invariant 0 <= k <= |rs|
      invariant isIn ==> forall m :: 0 <= m < k ==> rs[m].IsPoint()
      invariant !isIn ==> exists m :: 0 <= m < k && !rs[m].IsPoint()
    {
      isIn := rs[k].IsPoint();
      k := k + 1;
    }
  }

  /** Are the ranges all there is except for one or more points? */
  method ConvertsToNotIn(rs: seq<Range>) returns (isNotIn: bool)
    requires SortedList(rs)
    ensures isNotIn <==> |rs| > 1 && exists ds :: NotInPattern(rs, ds)
  {
    if |rs| <= 1 || rs[0].left.Some? || rs[|rs| - 1].right.Some? {
      return false;
    }
    isNotIn := true;
    var left := rs[0];
    var k := 1;
    while k < |rs| && isNotIn
      invariant 1 <= k <= |rs| && left == rs[k - 1]
      invariant isNotIn ==> forall m :: 0 <= m < k - 1 ==> OpenContact(rs, m)
      invariant !isNotIn ==> exists m :: 0 <= m < k - 1 && !OpenContact(rs, m)
    {
      var right := rs[k];
      isNotIn := !left.rightIncl && !right.leftIncl && left.UpperBoundEqualsLowerBound(right);
      assert isNotIn <==> OpenContact(rs, k - 1);
      left := right;
      k := k + 1;
    }
    NotInIffContacts(rs);
  }

  lemma NotInIffContacts(rs: seq<Range>)
    requires SortedList(rs) && |rs| > 1 && rs[0].left.None? && rs[|rs| - 1].right.None?
    ensures (exists ds :: NotInPattern(rs, ds)) <==> forall m :: 0 <= m < |rs| - 1 ==> OpenContact(rs, m)
  {
    if ds :| NotInPattern(rs, ds) {
      forall m | 0 <= m < |rs| - 1
        ensures OpenContact(rs, m)
      {
        assert rs[m] == GapRange(ds, m) && rs[m + 1] == GapRange(ds, m + 1);
      }
    }
    if forall m :: 0 <= m < |rs| - 1 ==> OpenContact(rs, m) {
      var ds := seq(|rs| - 1, m requires 0 <= m < |rs| - 1 => rs[m].right.value);
      forall m | 0 <= m < |rs|
        ensures rs[m] == GapRange(ds, m)
      {
        assert m > 0 ==> OpenContact(rs, m - 1);
        assert m < |rs| - 1 ==> OpenContact(rs, m);
      }
      assert NotInPattern(rs, ds);
    }
  }

  lemma NotInStartsUnbounded(rs: seq<Range>)
    requires |rs| > 0
    ensures (exists ds :: NotInPattern(rs, ds)) ==> rs[0].left.None?
  {
    if ds :| NotInPattern(rs, ds) {
      assert rs[0] == GapRange(ds, 0);
    }
  }

  /** Two neighbouring ranges leave out just one point. */
  ghost predicate OpenContact(rs: seq<Range>, m: nat)
    requires m + 1 < |rs|
  {
    && !rs[m].rightIncl && !rs[m + 1].leftIncl
    && rs[m].right.Some? && rs[m + 1].left.Some? && rs[m].right == rs[m + 1].left
  }

  /** The constants of the array form: the right ends of the ranges. */
  ghost predicate RightEnds(items: seq<Option<Datum>>, rs: seq<Range>, ds: seq<Datum>) {
    && |items| == |ds| <= |rs|
    && forall m :: 0 <= m < |items| ==> items[m] == Some(ds[m]) == rs[m].right
  }

  lemma ArrayFormMembers(rs: seq<Range>, isIn: bool, ds: seq<Datum>)
    requires SortedList(rs) && |rs| > 1
    requires isIn ==> InPattern(rs, ds)
    requires !isIn ==> NotInPattern(rs, ds)
    ensures forall x :: Member(rs, x) <==> (x in ds <==> isIn)
  {
    if isIn {
      InPatternMembers(rs, ds);
    } else {
      forall m, n | 0 <= m < n < |ds|
        ensures ds[m] < ds[n]
      {
        assert rs[m].DisjointLeft(rs[n]) && rs[n].Valid();
        assert rs[m] == GapRange(ds, m) && rs[n] == GapRange(ds, n);
      }
      NotInPatternMembers(rs, ds);
    }
  }

  lemma ArrayFormMeans(isIn: bool, items: seq<Option<Datum>>, ds: seq<Datum>, env: Env, v: Value)
    requires |items| == |ds| > 0 && forall m :: 0 <= m < |items| ==> items[m] == Some(ds[m])
    ensures Eval(ArrayForm(isIn, items), env, v) == True <==> v.Val? && (v.x in ds <==> isIn)
  {
    var op, quant := if isIn then Eq else Neq, if isIn then Any else All;
    ArrayWanted(op, quant, items, false, v);
    assert v.Null? ==> CompareItem(op, v, items[0]) == Unknown;
    assert v.Val? ==> forall m :: 0 <= m < |items| ==> (CompareItem(op, v, items[m]) == True <==> (v.x == ds[m] <==> isIn));
  }

  /** An IN or NOT IN list, possibly with an alternative for NULL. */
  predicate UsesArray(e: Pred, isIn: bool) {
    var form := if e.Or? && |e.args| == 2 && e.args[1] == IsNull then e.args[0] else e;
    form.ArrayCmp? && form == ArrayForm(isIn, form.items)
  }

  lemma ArrayShape(e: Pred, isIn: bool) returns (items: seq<Option<Datum>>)
    requires UsesArray(e, isIn)
    ensures isIn ==> e == ArrayCmp(Eq, Any, items) || e == Or([ArrayCmp(Eq, Any, items), IsNull])
    ensures !isIn ==> e == ArrayCmp(Neq, All, items) || e == Or([ArrayCmp(Neq, All, items), IsNull])
  {
    if e.Or? {
      items := e.args[0].items;
      assert e.args == [e.args[0], e.args[1]];
    } else {
      items := e.items;
    }
  }

  function ArrayForm(isIn: bool, items: seq<Option<Datum>>): Pred {
    if isIn then ArrayCmp(Eq, Any, items) else ArrayCmp(Neq, All, items)
  }

  /** The array form: `= ANY` over the points, or `<> ALL` over the points left out. */
  method PrintArray(i: Interval, isIn: bool) returns (e: Pred)
    requires i.Sorted() && |i.ranges| > 1
    requires isIn ==> forall k :: 0 <= k < |i.ranges| ==> i.ranges[k].IsPoint()
    requires !isIn ==> exists ds :: NotInPattern(i.ranges, ds)
    ensures PrintsAs(e, i, true) && UsesArray(e, isIn)
  {
    var count := if isIn then |i.ranges| else |i.ranges| - 1;
    var items: seq<Option<Datum>> := [];
    ghost var ds: seq<Datum> := [];
    for k := 0 to count
      invariant |items| == k && RightEnds(items, i.ranges, ds)
    {
      items := items + [Some(i.ranges[k].right.value)];
      ds := ds + [i.ranges[k].right.value];
    }
    e := ArrayForm(isIn, items);
    ArrayFormPrints(i, isIn, items, ds);
    if i.nulls {
      var form := e;
      e := ConnectPreds([form, IsNull], false);
      forall env, v
        ensures Eval(e, env, v) == True <==> i.Has(v)
      {
        OrIsNull(form, env, v);
      }
    }
  }

  lemma ArrayFormPrints(i: Interval, isIn: bool, items: seq<Option<Datum>>, ds: seq<Datum>)
    requires i.Sorted() && |i.ranges| > 1 && RightEnds(items, i.ranges, ds)
    requires |ds| == if isIn then |i.ranges| else |i.ranges| - 1
    requires isIn ==> forall k :: 0 <= k < |i.ranges| ==> i.ranges[k].IsPoint()
    requires !isIn ==> exists gaps :: NotInPattern(i.ranges, gaps)
    ensures WellFormed(ArrayForm(isIn, items)) && Scoped(ArrayForm(isIn, items), true, false)
    ensures forall env, v :: Eval(ArrayForm(isIn, items), env, v) == True <==> v.Val? && i.Has(v)
  {
    if !isIn {
      var gaps :| NotInPattern(i.ranges, gaps);
      assert gaps == ds by {
        assert forall m :: 0 <= m < |ds| ==> i.ranges[m] == GapRange(gaps, m);
      }
    }
    ArrayFormMembers(i.ranges, isIn, ds);
    assert items[0].Some?;
    forall env, v
      ensures Eval(ArrayForm(isIn, items), env, v) == True <==> v.Val? && i.Has(v)
    {
      ArrayFormMeans(isIn, items, ds, env, v);
    }
  }

  lemma OrIsNull(e: Pred, env: Env, v: Value)
    ensures EvalOr([e, IsNull], env, v) == True <==> Eval(e, env, v) == True || v.Null?
  {
    var parts := [e, IsNull];
    OrWanted(parts, env, false, v);
    assert Eval(parts[1], env, v) == Truly(v.Null?);
    assert Wanted(false, Eval(parts[0], env, v)) <==> Eval(e, env, v) == True;
  }

  /** The disjunction form: one disjunct for each range, and one for NULL. */
  method PrintDisjunction(i: Interval, ghost arrays: bool) returns (e: Pred)
    requires i.Sorted()
    ensures PrintsAs(e, i, arrays)
  {
    var parts: seq<Pred> := [];
    for k := 0 to |i.ranges|
      invariant |parts| == k
      invariant forall m :: 0 <= m < k ==> RangePrintsAs(parts[m], i.ranges[m])
    {
      var part := RangeExpr(i.ranges[k]);
      parts := parts + [part];
    }
    if |parts| == 1 && parts[0] == Const(True) {
      assert forall x :: i.ranges[0].Has(x);
      if i.nulls {
        return Const(True);
      }
      return Not(IsNull);
    }
    assert forall m :: 0 <= m < |parts| ==> !i.ranges[m].IsUnbounded() by {
      if |parts| > 1 {
        assert i.ranges[0].DisjointLeft(i.ranges[1]);
        assert forall m :: 0 < m < |parts| ==> i.ranges[0].DisjointLeft(i.ranges[m]);
      }
    }
    var all := if i.nulls then parts + [IsNull] else parts;
    e := ConnectPreds(all, false);
    forall env, v
      ensures Eval(e, env, v) == True <==> i.Has(v)
    {
      OrWanted(all, env, false, v);
      DisjunctsMean(parts, i, all, env, v);
    }
  }

  lemma DisjunctsMean(parts: seq<Pred>, i: Interval, all: seq<Pred>, env: Env, v: Value)
    requires |parts| == |i.ranges| && all == if i.nulls then parts + [IsNull] else parts
    requires forall m :: 0 <= m < |parts| ==> RangePrintsAs(parts[m], i.ranges[m]) && !i.ranges[m].IsUnbounded()
    ensures (exists k :: 0 <= k < |all| && Wanted(false, Eval(all[k], env, v))) <==> i.Has(v)
  {
    if i.nulls {
      assert Eval(all[|parts|], env, v) == Truly(v.Null?);
    }
    if v.Val? && i.Has(v) {
      var m :| 0 <= m < |i.ranges| && i.ranges[m].Has(v.x);
      assert RangePrintsAs(parts[m], i.ranges[m]);
      assert Wanted(false, Eval(all[m], env, v));
    }
    if k :| 0 <= k < |all| && Wanted(false, Eval(all[k], env, v)) {
      if k < |parts| {
        assert RangePrintsAs(parts[k], i.ranges[k]);
        assert all[k] == parts[k];
      }
    }
  }

  /** Prints an interval; the array form is tried first if array constraints are enabled. */
  method Print(i: Interval, arrays: bool) returns (e: Pred)
    requires i.Sorted()
    ensures PrintsAs(e, i, arrays)
    ensures arrays && |i.ranges| > 1 && (forall k :: 0 <= k < |i.ranges| ==> i.ranges[k].IsPoint()) ==> UsesArray(e, true)
    ensures arrays && |i.ranges| > 1 && (exists ds :: NotInPattern(i.ranges, ds)) ==> UsesArray(e, false)
  {
    if i.IsContradiction() {
      ContradictionMeaning(i);
      return Const(False);
    }
    if arrays && |i.ranges| > 1 {
      NotInStartsUnbounded(i.ranges);
      var isIn := ConvertsToIn(i.ranges);
      if isIn {
        e := PrintArray(i, true);
        return;
      }
      var isNotIn := ConvertsToNotIn(i.ranges);
      if isNotIn {
        e := PrintArray(i, false);
        return;
      }
    }
    e := PrintDisjunction(i, arrays);
  }

  /** Whatever was printed for a sorted interval compiles to the canonical interval with the same values. */
  lemma PrintedCompilesBack(i: Interval, e: Pred, arrays: bool, r: Interval)
    requires PrintsAs(e, i, arrays) && Compiled(r, e, arrays, false)
    ensures forall v :: r.Has(v) <==> i.Has(v)
    ensures i.Canonical() ==> r == i
  {
    var env: Env := (_, _) => Unknown;
    forall v
      ensures r.Has(v) <==> i.Has(v)
    {
      SelectsExact(e, arrays, false, env, v);
      assert Eval(e, env, v) == True <==> i.Has(v);
    }
    if i.Canonical() {
      IntervalUnique(r, i);
    }
  }

  /** Round trip: print, then compile; the range list and the NULL flag come back unchanged. */
  method PrintAndCompile(i: Interval, arrays: bool) returns (r: Option<Interval>)
    requires i.Sorted()
    ensures r.Some? && r.value.Canonical() && forall v :: r.value.Has(v) <==> i.Has(v)
    ensures i.Canonical() ==> r.value == i
  {
    var e := Print(i, arrays);
    ScopedConverts(e, arrays, false);
    r := FromExpr(e, arrays, false);
    PrintedCompilesBack(i, e, arrays, r.value);
  }
}
