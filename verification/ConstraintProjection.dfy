/**
  Operations that walk a constraint tree: projection onto a column or a set of columns, remapping
  to another column, and the conversion of a constraint on one column to an interval.
 */
module ConstraintProjection {
  import opened Options
  import opened Intervals
  import opened IntervalCompiler
  import opened Predicates
  import opened Constraints
  import opened ConstraintTrees

  /** A projection of c: satisfied exactly by the rows of the relaxed tree; absent if that is every row. */
  ghost predicate ProjectionOf(r: Option<Constraint>, c: Constraint, cols: set<Col>) {
    && (r.None? ==> forall row: Row :: Relaxed(c, cols, row))
    && (r.Some? ==> Valid(r.value) && Cols(r.value) <= cols && forall row: Row :: Sat(r.value, row) <==> Relaxed(c, cols, row))
  }

  function UnboundedLeaf(col: Col): (c: Constraint)
    ensures Valid(c) && Cols(c) == {col} && IsUnbounded(c) && forall row: Row :: Sat(c, row)
  {
    Leaf(col, Unbounded(true))
  }

  lemma UnboundedSat(c: Constraint)
    requires Valid(c) && IsUnbounded(c)
    ensures forall row: Row :: Sat(c, row)
  {
    UnboundedMeaning(c.interval);
  }

  ghost predicate AllRelaxed(cs: seq<Constraint>, cols: set<Col>, row: Row) {
    forall m :: 0 <= m < |cs| ==> Relaxed(cs[m], cols, row)
  }

  /** The children that refer to the column decide: the others are relaxed to true. */
  lemma RelaxedByGroup(parts: seq<Constraint>, col: Col, row: Row)
    requires ValidParts(parts)
    ensures Relaxed(Conj(parts), {col}, row) <==> AllRelaxed(OnColumn(parts, col, false), {col}, row)
  {
    var group := OnColumn(parts, col, false);
    if Relaxed(Conj(parts), {col}, row) {
      forall m | 0 <= m < |group|
        ensures Relaxed(group[m], {col}, row)
      {
        OnColumnOrigin(parts, col, false, group[m]);
        var k :| 0 <= k < |parts| && parts[k] == group[m];
      }
    }
    if AllRelaxed(group, {col}, row) {
      forall k | 0 <= k < |parts|
        ensures Relaxed(parts[k], {col}, row)
      {
        if Refers(parts[k], col, false) {
          OnColumnHolds(parts, col, false, k);
          var m :| 0 <= m < |group| && group[m] == parts[k];
        } else {
          RelaxedDisjoint(parts[k], {col}, row);
        }
      }
    }
  }

  /** A child without the column relaxes the whole disjunction to true. */
  lemma RelaxedByMissing(parts: seq<Constraint>, cols: set<Col>, k: nat, row: Row)
    requires ValidParts(parts) && k < |parts| && Cols(parts[k]) !! cols
    ensures Relaxed(Disj(parts), cols, row)
  {
    RelaxedDisjoint(parts[k], cols, row);
  }

  /** The collected projections stand for the first k children: all satisfied, or all not. */
  ghost predicate Collected(kept: seq<Constraint>, cs: seq<Constraint>, k: nat, cols: set<Col>, b: bool) {
    && k <= |cs| && ValidParts(kept) && ColsOf(kept) <= cols
    && forall row: Row :: AllAre(kept, row, b) <==> forall m :: 0 <= m < k ==> (Relaxed(cs[m], cols, row) <==> b)
  }

  lemma CollectMore(kept: seq<Constraint>, cs: seq<Constraint>, k: nat, cols: set<Col>, b: bool, p: Constraint)
    requires k < |cs| && Collected(kept, cs, k, cols, b)
    requires Valid(p) && Cols(p) <= cols && forall row: Row :: Sat(p, row) <==> Relaxed(cs[k], cols, row)
    ensures Collected(kept + [p], cs, k + 1, cols, b)
  {
    ColsOfAppend(kept, p);
    forall row: Row
      ensures AllAre(kept + [p], row, b) <==> forall m :: 0 <= m < k + 1 ==> (Relaxed(cs[m], cols, row) <==> b)
    {
      AllAreAppend(kept, p, row, b);
      assert AllAre(kept, row, b) <==> forall m :: 0 <= m < k ==> (Relaxed(cs[m], cols, row) <==> b);
      assert Sat(p, row) <==> Relaxed(cs[k], cols, row);
    }
  }

  /** A child that is relaxed to true adds nothing to a conjunction. */
  lemma CollectSkip(kept: seq<Constraint>, cs: seq<Constraint>, k: nat, cols: set<Col>)
    requires k < |cs| && Collected(kept, cs, k, cols, true)
    requires forall row: Row :: Relaxed(cs[k], cols, row)
    ensures Collected(kept, cs, k + 1, cols, true)
  {
  }

  lemma GroupInParts(parts: seq<Constraint>, col: Col)
    ensures forall m :: 0 <= m < |OnColumn(parts, col, false)| ==> OnColumn(parts, col, false)[m] in parts
  {
    var group := OnColumn(parts, col, false);
    forall m | 0 <= m < |group|
      ensures group[m] in parts
    {
      OnColumnOrigin(parts, col, false, group[m]);
    }
  }

  /** Projection onto one column. */
  method ProjectColumn(c: Constraint, col: Col, arrays: bool) returns (r: Option<Constraint>)
    requires Valid(c)
    ensures ProjectionOf(r, c, {col})
    decreases c, 1
  {
    match c {
      case Leaf(own, _) =>
        r := if own == col then Some(c) else None;
      case Conj(_) =>
        r := ProjectConjunction(c, col, arrays);
      case Disj(_) =>
        r := ProjectDisjunction(c, col, arrays);
    }
  }

  method ProjectConjunction(c: Constraint, col: Col, arrays: bool) returns (r: Option<Constraint>)
    requires Valid(c) && c.Conj?
    ensures ProjectionOf(r, c, {col})
    decreases c, 0
  {
    if col !in Cols(c) {
      forall row: Row { RelaxedDisjoint(c, {col}, row); }
      return None;
    }
    var group := LookupLinear(c.parts, col, false);
    GroupInParts(c.parts, col);
    var kept: seq<Constraint> := [];
    for k := 0 to |group|
      invariant Collected(kept, group, k, {col}, true)
    {
      assert group[k] in c.parts;
      var p := ProjectColumn(group[k], col, arrays);
      if p.None? || IsUnbounded(p.value) {
        if p.Some? {
          UnboundedSat(p.value);
        }
        CollectSkip(kept, group, k, {col});
        continue;
      }
      CollectMore(kept, group, k, {col}, true, p.value);
      kept := kept + [p.value];
    }
    r := Combine(true, kept, arrays);
    forall row: Row
      ensures Sat(Node(true, kept), row) <==> Relaxed(c, {col}, row)
    {
      RelaxedByGroup(c.parts, col, row);
      NodeSat(true, kept, row);
    }
  }

  method ProjectDisjunction(c: Constraint, col: Col, arrays: bool) returns (r: Option<Constraint>)
    requires Valid(c) && c.Disj?
    ensures ProjectionOf(r, c, {col})
    ensures r.None? <==> col !in Cols(c)
    decreases c, 0
  {
    if col !in Cols(c) {
      forall row: Row { RelaxedDisjoint(c, {col}, row); }
      return None;
    }
    var group := LookupLinear(c.parts, col, false);
    OnColumnAll(c.parts, col, false);
    if |group| != |c.parts| {
      ghost var k :| 0 <= k < |c.parts| && !Refers(c.parts[k], col, false);
      forall row: Row { RelaxedByMissing(c.parts, {col}, k, row); }
      return Some(UnboundedLeaf(col));
    }
    var kept: seq<Constraint> := [];
    for k := 0 to |group|
      invariant Collected(kept, group, k, {col}, false)
      invariant |kept| == k
    {
      var p := ProjectColumn(group[k], col, arrays);
      if p.None? {
        p := Some(UnboundedLeaf(col));
      }
      if IsUnbounded(p.value) {
        UnboundedSat(p.value);
        assert forall row: Row :: Sat(p.value, row) ==> Relaxed(group[k], {col}, row);
        return p;
      }
      CollectMore(kept, group, k, {col}, false, p.value);
      kept := kept + [p.value];
    }
    r := Combine(false, kept, arrays);
    forall row: Row
      ensures Sat(Node(false, kept), row) <==> Relaxed(c, {col}, row)
    {
      NodeSat(false, kept, row);
    }
  }

  /** The first k parts use none of the columns. */
  ghost predicate AllDisjoint(parts: seq<Constraint>, k: nat, cols: set<Col>)
    requires k <= |parts|
  {
    forall m :: 0 <= m < k ==> Cols(parts[m]) !! cols
  }

  lemma DisjointParts(parts: seq<Constraint>, cols: set<Col>)
    ensures AllDisjoint(parts, |parts|, cols) <==> ColsOf(parts) !! cols
  {
    forall m | 0 <= m < |parts| { ColsOfSubset(parts, m); }
    if AllDisjoint(parts, |parts|, cols) {
      forall col | col in ColsOf(parts)
        ensures col !in cols
      {
        ColsOfMember(parts, col);
      }
    }
  }

  /** Projection onto a set of columns. */
  method ProjectColumns(c: Constraint, cols: set<Col>, arrays: bool) returns (r: Option<Constraint>)
    requires Valid(c)
    ensures ProjectionOf(r, c, cols)
    ensures r.None? <==> Cols(c) !! cols && (c.Disj? ==> cols == {})
    decreases c
  {
    if c.Leaf? {
      return if c.col in cols then Some(c) else None;
    }
    var kept: seq<Constraint> := [];
    for k := 0 to |c.parts|
      invariant Collected(kept, c.parts, k, cols, c.Conj?)
      invariant c.Disj? ==> |kept| == k
      invariant |kept| == 0 <==> AllDisjoint(c.parts, k, cols)
    {
      var part := c.parts[k];
      if Cols(part) !! cols {
        forall row: Row { RelaxedDisjoint(part, cols, row); }
        if c.Disj? {
          r := UnboundedOnAny(cols);
          forall row: Row { RelaxedByMissing(c.parts, cols, k, row); }
          return;
        }
        continue;
      }
      var p := ProjectColumns(part, cols, arrays);
      if p.None? {
        if c.Conj? {
          continue;
        }
        p := UnboundedOnAny(cols);
      }
      CollectMore(kept, c.parts, k, cols, c.Conj?, p.value);
      kept := kept + [p.value];
    }
    DisjointParts(c.parts, cols);
    r := Combine(c.Conj?, kept, arrays);
    forall row: Row
      ensures AllAre(kept, row, c.Conj?) <==> (Relaxed(c, cols, row) <==> c.Conj?)
    {
    }
    forall row: Row { NodeSat(c.Conj?, kept, row); }
  }

  /** An unbounded interval on some column of the set. */
  method UnboundedOnAny(cols: set<Col>) returns (r: Option<Constraint>)
    ensures r.None? <==> cols == {}
    ensures r.Some? ==> Valid(r.value) && Cols(r.value) <= cols && forall row: Row :: Sat(r.value, row)
  {
    if cols == {} {
      return None;
    }
    var col :| col in cols;
    r := Some(UnboundedLeaf(col));
  }

  /** What projection is for: a row of the tree is a row of its projection. */
  lemma ProjectionSound(r: Option<Constraint>, c: Constraint, cols: set<Col>, row: Row)
    requires ProjectionOf(r, c, cols) && Sat(c, row)
    ensures r.Some? ==> Sat(r.value, row)
  {
    RelaxedSound(c, cols, row);
  }

  /** The same constraint with all its columns replaced by one. */
  ghost predicate RemapOf(r: Constraint, c: Constraint, col: Col) {
    && Valid(r) && Cols(r) <= {col}
    && forall row: Row :: Sat(r, row) <==> Sat(c, ConstRow(row(col)))
  }

  lemma RemapNode(r: Constraint, parts: seq<Constraint>, c: Constraint, col: Col, row: Row)
    requires !c.Leaf? && |parts| == |c.parts|
    requires forall m :: 0 <= m < |parts| ==> RemapOf(parts[m], c.parts[m], col)
    requires Sat(r, row) <==> Sat(Node(c.Conj?, parts), row)
    ensures Sat(r, row) <==> Sat(c, ConstRow(row(col)))
  {
    assert forall m :: 0 <= m < |parts| ==> (Sat(parts[m], row) <==> Sat(c.parts[m], ConstRow(row(col))));
  }

  method Remap(c: Constraint, col: Col, arrays: bool) returns (r: Constraint)
    requires Valid(c)
    ensures RemapOf(r, c, col)
    decreases c
  {
    if c.Leaf? {
      return Leaf(col, c.interval);
    }
    var parts: seq<Constraint> := [];
    for k := 0 to |c.parts|
      invariant |parts| == k && ColsOf(parts) <= {col}
      invariant forall m :: 0 <= m < k ==> RemapOf(parts[m], c.parts[m], col)
    {
      var part := Remap(c.parts[k], col, arrays);
      ColsOfAppend(parts, part);
      parts := parts + [part];
    }
    var combined := Combine(c.Conj?, parts, arrays);
    r := combined.value;
    forall row: Row
      ensures Sat(r, row) <==> Sat(c, ConstRow(row(col)))
    {
      RemapNode(r, parts, c, col, row);
    }
  }

  /** A constraint on at most the given column, as an interval; nothing means every value. */
  method ToInterval(c: Option<Constraint>, col: Col, arrays: bool) returns (i: Interval)
    requires c.Some? ==> Valid(c.value) && Cols(c.value) <= {col}
    ensures i.Canonical()
    ensures forall v :: i.Has(v) <==> c.None? || Sat(c.value, ConstRow(v))
  {
    if c.None? {
      return Unbounded(true);
    }
    if c.value.Leaf? {
      return c.value.interval;
    }
    var e := PrintConstraint(c.value, col, arrays);
    ScopedConverts(e, arrays, false);
    var r := FromExpr(e, arrays, false);
    i := r.value;
    ghost var env: Env := (_, _) => Unknown;
    forall v { SelectsExact(e, arrays, false, env, v); }
  }
}
