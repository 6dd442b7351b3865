/**
  The constraint property of an expression (CPropConstraint): a constraint and the equivalence
  classes of its columns, from which predicates on a column are inferred out of the constraints
  on its equivalent columns.
 */
module PropConstraint {
  import opened Options
  import opened Predicates
  import opened Constraints
  import opened ConstraintTrees
  import opened ConstraintProjection

  /** The row gives all columns of a class the same value. */
  ghost predicate Agrees(row: Row, cls: set<Col>) {
    forall a, b :: a in cls && b in cls ==> row(a) == row(b)
  }

  /** The table of classes: a column is filed under the first class that holds it. */
  ghost predicate FirstClass(m: map<Col, set<Col>>, classes: seq<set<Col>>, n: nat)
    requires n <= |classes|
  {
    && (forall k, col :: 0 <= k < n && col in classes[k] ==> col in m)
    && (forall col :: col in m ==>
          exists k :: 0 <= k < n && m[col] == classes[k] && col in classes[k] && forall j :: 0 <= j < k ==> col !in classes[j])
  }

  /** The same when the columns in `todo` of class n are still to be filed. */
  ghost predicate FilingClass(m: map<Col, set<Col>>, before: map<Col, set<Col>>, cls: set<Col>, todo: set<Col>) {
    && m.Keys == before.Keys + (cls - todo)
    && forall col :: col in m ==> m[col] == if col in before then before[col] else cls
  }

  class Property {
    const classes: seq<set<Col>>
    const cnstr: Option<Constraint>
    /** Column to equivalence class; only built if there are classes. */
    var equiv: map<Col, set<Col>>

    ghost predicate Valid()
      reads this
    {
      && (cnstr.Some? ==> Constraints.Valid(cnstr.value))
      && FirstClass(equiv, classes, |classes|)
    }

    constructor (classes: seq<set<Col>>, cnstr: Option<Constraint>)
      requires cnstr.Some? ==> Constraints.Valid(cnstr.value)
      ensures Valid() && this.classes == classes && this.cnstr == cnstr
      ensures forall k, col :: 0 <= k < |classes| && col in classes[k] ==> col in equiv
      ensures forall col :: col in equiv ==>
                exists k :: 0 <= k < |classes| && equiv[col] == classes[k] && col in classes[k] && forall j :: 0 <= j < k ==> col !in classes[j]
    {
      this.classes := classes;
      this.cnstr := cnstr;
      equiv := map[];
      new;
      for k := 0 to |classes|
        invariant this.classes == classes && this.cnstr == cnstr
        invariant FirstClass(equiv, classes, k)
      {
        ghost var before := equiv;
        var todo := classes[k];
        while todo != {}
          invariant this.classes == classes && this.cnstr == cnstr
          invariant todo <= classes[k]
          invariant FilingClass(equiv, before, classes[k], todo)
          decreases |todo|
        {
          var col :| col in todo;
          if col !in equiv {
            equiv := equiv[col := classes[k]];
          }
          todo := todo - {col};
        }
        FiledClass(equiv, before, classes, k);
      }
    }

    /** The class of the column, empty if it is in none. */
    ghost function ClassOf(col: Col): set<Col>
      reads this
    {
      if col in equiv then equiv[col] else {}
    }

    /** The other columns of the class. */
    ghost function Others(col: Col): set<Col>
      reads this
    {
      ClassOf(col) - {col}
    }

    /** The row satisfies the constraint and respects the class of the column. */
    ghost predicate Holds(col: Col, row: Row)
      reads this
    {
      SatIn(cnstr, row) && Agrees(row, ClassOf(col))
    }

    lemma OthersEmpty(col: Col)
      requires Valid()
      ensures Others(col) == {} <==> col !in equiv || |equiv[col]| == 1
    {
      if col in equiv {
        assert col in equiv[col];
        assert equiv[col] == Others(col) + {col};
      }
    }

    /**
      A predicate on the column, from the constraints on its equivalent columns in this scope and in
      an outer one. If it is produced, it is true of every row that satisfies the constraints and
      respects the classes; if it is not, then there are no equivalents or they are not restricted.
      The original reads the own class of the column without a test once the outer one has other columns.
     */
    method InferFromEquivalents(col: Col, outer: Property?, arrays: bool) returns (e: Option<Pred>)
      requires Valid() && (outer != null ==> outer.Valid())
      requires cnstr.Some? && |classes| > 0 && col !in equiv ==> outer == null || outer.Others(col) == {}
      ensures e.Some? ==> cnstr.Some? && col in equiv && Equivalents(this, outer, col) != {}
      ensures e.Some? ==> forall row: Row, env ::
                Holds(col, row) && (outer != null ==> outer.Holds(col, row)) ==> Eval(e.value, env, row(col)) == True
      ensures e.Some? ==> forall row: Row, env :: Agrees(row, Equivalents(this, outer, col) + {col}) ==>
                (Eval(e.value, env, row(col)) == True <==> BothAdmit(this, outer, Equivalents(this, outer, col), row))
      ensures e.None? ==> cnstr.None? || |classes| == 0 || Equivalents(this, outer, col) == {} ||
                          forall row: Row :: BothAdmit(this, outer, Equivalents(this, outer, col), row)
    {
      if cnstr.None? || |classes| == 0 {
        return None;
      }
      OthersEmpty(col);
      if outer != null {
        outer.OthersEmpty(col);
      }
      if (col !in equiv || |equiv[col]| == 1) && (outer == null || col !in outer.equiv || |outer.equiv[col]| == 1) {
        return None;
      }
      var others := equiv[col] + (if outer != null && col in outer.equiv then outer.equiv[col] else {}) - {col};
      assert others == Equivalents(this, outer, col);
      e := InferOn(cnstr.value, if outer == null then None else outer.cnstr, others, col, arrays);
      forall row: Row, env | e.Some? && Holds(col, row) && (outer != null ==> outer.Holds(col, row))
        ensures Eval(e.value, env, row(col)) == True
      {
        HoldsAdmits(this, outer, col, row);
      }
    }
  }

  /** The columns equivalent to a column in either scope. */
  ghost function Equivalents(own: Property, outer: Property?, col: Col): (cols: set<Col>)
    reads own, outer
    ensures forall c :: c in cols <==>
              c != col && ((col in own.equiv && c in own.equiv[col]) || (outer != null && col in outer.equiv && c in outer.equiv[col]))
  {
    own.Others(col) + if outer == null then {} else outer.Others(col)
  }

  /** The constraints of both scopes, with all intervals outside the columns taken as true. */
  ghost predicate BothAdmit(own: Property, outer: Property?, cols: set<Col>, row: Row)
    reads own, outer
  {
    RelaxedIn(own.cnstr, cols, row) && (outer != null ==> RelaxedIn(outer.cnstr, cols, row))
  }

  /** Each scope has a say if it has a constraint, and restricts nothing if it has none. */
  lemma BothHaveASay(own: Property, outer: Property?, cols: set<Col>, row: Row)
    ensures own.cnstr.Some? && !Relaxed(own.cnstr.value, cols, row) ==> !BothAdmit(own, outer, cols, row)
    ensures outer != null && outer.cnstr.Some? && !Relaxed(outer.cnstr.value, cols, row) ==> !BothAdmit(own, outer, cols, row)
    ensures own.cnstr.None? && (outer == null || outer.cnstr.None?) ==> BothAdmit(own, outer, cols, row)
    ensures own.cnstr.Some? && Relaxed(own.cnstr.value, cols, row) && (outer == null || outer.cnstr.None?) ==>
              BothAdmit(own, outer, cols, row)
  {
  }

  lemma HoldsAdmits(own: Property, outer: Property?, col: Col, row: Row)
    requires own.Valid() && (outer != null ==> outer.Valid())
    requires own.Holds(col, row) && (outer != null ==> outer.Holds(col, row))
    ensures BothAdmit(own, outer, Equivalents(own, outer, col), row)
    ensures Agrees(row, Equivalents(own, outer, col) + {col})
  {
    var cols := Equivalents(own, outer, col);
    if own.cnstr.Some? {
      RelaxedSound(own.cnstr.value, cols, row);
    }
    if outer != null && outer.cnstr.Some? {
      RelaxedSound(outer.cnstr.value, cols, row);
    }
    forall a | a in cols
      ensures row(a) == row(col)
    {
      assert if a in own.Others(col) then col in own.ClassOf(col) else col in outer.ClassOf(col);
    }
  }

  /** Projects both constraints to the equivalent columns, and moves what is left to the column. */
  method InferOn(own: Constraint, outer: Option<Constraint>, others: set<Col>, col: Col, arrays: bool) returns (e: Option<Pred>)
    requires Constraints.Valid(own) && (outer.Some? ==> Constraints.Valid(outer.value))
    ensures e.Some? ==> forall row: Row, env :: Agrees(row, others + {col}) ==>
              (Eval(e.value, env, row(col)) == True <==> Relaxed(own, others, row) && RelaxedIn(outer, others, row))
    ensures e.None? ==> forall row: Row :: Relaxed(own, others, row) && RelaxedIn(outer, others, row)
  {
    var local := ProjectColumns(own, others, arrays);
    var fromOuter: Option<Constraint> := None;
    if outer.Some? {
      fromOuter := ProjectColumns(outer.value, others, arrays);
    }
    var all := CombineScopes(local, fromOuter, arrays);
    if all.None? {
      return None;
    }
    var remapped := Remap(all.value, col, arrays);
    var printed := PrintConstraint(remapped, col, arrays);
    e := Some(printed);
    forall row: Row, env | Agrees(row, others + {col})
      ensures Eval(printed, env, row(col)) == True <==> Relaxed(own, others, row) && RelaxedIn(outer, others, row)
    {
      SatDependsOnCols(all.value, row, ConstRow(row(col)));
      assert Sat(remapped, ConstRow(row(col))) <==> Sat(all.value, ConstRow(ConstRow(row(col))(col)));
    }
  }

  /** The constraints of both scopes, or of the one that has any. */
  method CombineScopes(local: Option<Constraint>, fromOuter: Option<Constraint>, arrays: bool) returns (all: Option<Constraint>)
    requires (local.Some? ==> Constraints.Valid(local.value)) && (fromOuter.Some? ==> Constraints.Valid(fromOuter.value))
    ensures all.None? <==> local.None? && fromOuter.None?
    ensures all.Some? ==> Constraints.Valid(all.value) && Cols(all.value) <= ColsIn(local) + ColsIn(fromOuter)
    ensures all.Some? ==> forall row: Row :: Sat(all.value, row) <==> SatIn(local, row) && SatIn(fromOuter, row)
  {
    if local.None? {
      return fromOuter;
    }
    if fromOuter.None? {
      return local;
    }
    var parts := [local.value, fromOuter.value];
    var both := Construct(true, parts, arrays);
    all := Some(both);
    forall col | col in ColsOf(parts)
      ensures col in Cols(local.value) + Cols(fromOuter.value)
    {
      ColsOfMember(parts, col);
    }
    forall row: Row
      ensures Sat(both, row) <==> Sat(local.value, row) && Sat(fromOuter.value, row)
    {
      assert parts[0] == local.value && parts[1] == fromOuter.value;
    }
  }

  ghost function ColsIn(c: Option<Constraint>): set<Col> {
    if c.None? then {} else Cols(c.value)
  }

  ghost predicate RelaxedIn(c: Option<Constraint>, cols: set<Col>, row: Row) {
    c.Some? ==> Relaxed(c.value, cols, row)
  }

  ghost predicate SatIn(c: Option<Constraint>, row: Row) {
    c.Some? ==> Sat(c.value, row)
  }

  lemma FiledClass(m: map<Col, set<Col>>, before: map<Col, set<Col>>, classes: seq<set<Col>>, k: nat)
    requires k < |classes| && FirstClass(before, classes, k) && FilingClass(m, before, classes[k], {})
    ensures FirstClass(m, classes, k + 1)
  {
    forall col | col in m
      ensures exists j :: 0 <= j < k + 1 && m[col] == classes[j] && col in classes[j] && forall i :: 0 <= i < j ==> col !in classes[i]
    {
      if col !in before {
        assert col in classes[k] && m[col] == classes[k];
      }
    }
  }
}
