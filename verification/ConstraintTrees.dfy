/**
  The constructors of constraint trees: lookup of single-column children through either column
  mapper, printing of a constraint on one column, flattening and per-column deduplication.
  `arrays` is the trace flag that enables array constraints.
 */
module ConstraintTrees {
  import opened Options
  import opened Intervals
  import opened IntervalCompiler
  import opened Predicates
  import opened Constraints

  // ----- lookup of the constraints on a column -----

  predicate OnlyOn(c: Constraint, col: Col) {
    Cols(c) == {col}
  }

  predicate Refers(c: Constraint, col: Col, exclusive: bool) {
    col in Cols(c) && (!exclusive || |Cols(c)| == 1)
  }

  /** The sublist of constraints that refer to the column, or that refer to it and nothing else. */
  function OnColumn(cs: seq<Constraint>, col: Col, exclusive: bool): (r: seq<Constraint>) {
    if cs == [] then []
    else
      var init, last := cs[..|cs| - 1], cs[|cs| - 1];
      OnColumn(init, col, exclusive) + (if Refers(last, col, exclusive) then [last] else [])
  }

  lemma SingletonCols(c: Constraint, col: Col)
    ensures Refers(c, col, true) <==> OnlyOn(c, col)
  {
    if Refers(c, col, true) {
      SingletonSet(Cols(c), col);
    }
  }

  /** The linear mapper: scans the whole list. */
  method LookupLinear(cs: seq<Constraint>, col: Col, exclusive: bool) returns (r: seq<Constraint>)
    ensures r == OnColumn(cs, col, exclusive)
  {
    r := [];
    for k := 0 to |cs|
      invariant r == OnColumn(cs[..k], col, exclusive)
    {
      assert cs[..k + 1][..k] == cs[..k];
      if col in Cols(cs[k]) && (!exclusive || |Cols(cs[k])| == 1) {
        r := r + [cs[k]];
      }
    }
    assert cs[..|cs|] == cs;
  }

  /** What a column map must hold: for each column with single-column constraints, all of them in order. */
  ghost predicate MapsSingleColumns(m: map<Col, seq<Constraint>>, cs: seq<Constraint>) {
    forall col :: if OnColumn(cs, col, true) == [] then col !in m else col in m && m[col] == OnColumn(cs, col, true)
  }

  /** The hash mapper: one pass that files each single-column constraint under its column. */
  method BuildColumnMap(cs: seq<Constraint>) returns (m: map<Col, seq<Constraint>>)
    ensures MapsSingleColumns(m, cs)
  {
    m := map[];
    for k := 0 to |cs|
      invariant MapsSingleColumns(m, cs[..k])
    {
      assert cs[..k + 1][..k] == cs[..k];
      ghost var before := m;
      if |Cols(cs[k])| == 1 {
        var col :| col in Cols(cs[k]);
        SingletonCols(cs[k], col);
        m := m[col := (if col in m then m[col] else []) + [cs[k]]];
        forall other
          ensures if OnColumn(cs[..k + 1], other, true) == [] then other !in m
                  else other in m && m[other] == OnColumn(cs[..k + 1], other, true)
        {
          assert other == col <==> Refers(cs[k], other, true);
        }
      }
    }
    assert cs[..|cs|] == cs;
  }

  /** Both mappers agree on every column that has a single-column constraint. */
  lemma MappersAgree(m: map<Col, seq<Constraint>>, cs: seq<Constraint>, k: nat, col: Col)
    requires MapsSingleColumns(m, cs) && k < |cs| && OnlyOn(cs[k], col)
    ensures col in m && m[col] == OnColumn(cs, col, true)
  {
    OnColumnMember(cs, col, k);
  }

  lemma {:induction false} OnColumnHolds(cs: seq<Constraint>, col: Col, exclusive: bool, k: nat)
    requires k < |cs| && Refers(cs[k], col, exclusive)
    ensures cs[k] in OnColumn(cs, col, exclusive)
  {
    if k < |cs| - 1 {
      OnColumnHolds(cs[..|cs| - 1], col, exclusive, k);
    }
  }

  lemma {:induction false} OnColumnOrigin(cs: seq<Constraint>, col: Col, exclusive: bool, c: Constraint)
    requires c in OnColumn(cs, col, exclusive)
    ensures Refers(c, col, exclusive) && c in cs
  {
    if c in OnColumn(cs[..|cs| - 1], col, exclusive) {
      OnColumnOrigin(cs[..|cs| - 1], col, exclusive, c);
    }
  }

  lemma OnColumnMember(cs: seq<Constraint>, col: Col, k: nat)
    requires k < |cs| && OnlyOn(cs[k], col)
    ensures cs[k] in OnColumn(cs, col, true)
  {
    OnColumnHolds(cs, col, true, k);
  }

  /** The sublist is the whole list exactly when every constraint refers to the column. */
  lemma {:induction false} OnColumnAll(cs: seq<Constraint>, col: Col, exclusive: bool)
    ensures |OnColumn(cs, col, exclusive)| <= |cs|
    ensures |OnColumn(cs, col, exclusive)| == |cs| <==> forall k :: 0 <= k < |cs| ==> Refers(cs[k], col, exclusive)
    ensures |OnColumn(cs, col, exclusive)| == |cs| ==> OnColumn(cs, col, exclusive) == cs
  {
    if cs != [] {
      var init := cs[..|cs| - 1];
      OnColumnAll(init, col, exclusive);
      assert forall k :: 0 <= k < |init| ==> init[k] == cs[k];
      assert cs == init + [cs[|cs| - 1]];
    }
  }

  /** Two positions with constraints on the same column alone give a group of at least two. */
  lemma {:induction false} OnColumnTwo(cs: seq<Constraint>, col: Col, i: nat, j: nat)
    requires i < j < |cs| && OnlyOn(cs[i], col) && OnlyOn(cs[j], col)
    ensures |OnColumn(cs, col, true)| >= 2
  {
    if j < |cs| - 1 {
      OnColumnTwo(cs[..|cs| - 1], col, i, j);
    } else {
      OnColumnMember(cs[..|cs| - 1], col, i);
    }
  }

  lemma OnColumnAllAre(cs: seq<Constraint>, col: Col, row: Row, b: bool)
    ensures AllAre(OnColumn(cs, col, true), row, b) <==>
            forall k :: 0 <= k < |cs| && OnlyOn(cs[k], col) ==> (Sat(cs[k], row) <==> b)
  {
    var group := OnColumn(cs, col, true);
    forall k | 0 <= k < |cs| && OnlyOn(cs[k], col)
      ensures cs[k] in group
    {
      OnColumnMember(cs, col, k);
    }
    forall m | 0 <= m < |group|
      ensures OnlyOn(group[m], col) && group[m] in cs
    {
      OnColumnOrigin(cs, col, true, group[m]);
      SingletonCols(group[m], col);
    }
  }

  // ----- printing a constraint on one column, and converting it to an interval -----

  /** The predicate, on the one column of the constraint, is true exactly of the satisfying values. */
  ghost predicate PrintsConstraint(e: Pred, c: Constraint, arrays: bool) {
    && WellFormed(e) && Scoped(e, arrays, false)
    && forall env, v :: Eval(e, env, v) == True <==> Sat(c, ConstRow(v))
  }

  method PrintConstraint(c: Constraint, ghost col: Col, arrays: bool) returns (e: Pred)
    requires Valid(c) && Cols(c) <= {col}
    ensures PrintsConstraint(e, c, arrays)
    decreases c, 1
  {
    if c.Leaf? {
      e := Print(c.interval, arrays);
      return;
    }
    if IsContradiction(c) {
      forall v { ContradictionSound(c, ConstRow(v)); }
      return Const(False);
    }
    e := PrintList(c.parts, c.Conj?, col, arrays);
    assert c == Node(c.Conj?, c.parts);
    forall v { NodeSat(c.Conj?, c.parts, ConstRow(v)); }
  }

  method PrintList(cs: seq<Constraint>, conj: bool, ghost col: Col, arrays: bool) returns (e: Pred)
    requires |cs| > 0 && ValidParts(cs) && ColsOf(cs) <= {col}
    ensures WellFormed(e) && Scoped(e, arrays, false)
    ensures forall env, v :: (Eval(e, env, v) == True <==> conj) <==> AllAre(cs, ConstRow(v), conj)
    decreases cs, 0
  {
    var es: seq<Pred> := [];
    for k := 0 to |cs|
      invariant |es| == k
      invariant forall m :: 0 <= m < k ==> PrintsConstraint(es[m], cs[m], arrays)
    {
      ColsOfSubset(cs, k);
      var part := PrintConstraint(cs[k], col, arrays);
      es := es + [part];
    }
    e := ConnectPreds(es, conj);
    forall env, v
      ensures (Eval(e, env, v) == True <==> conj) <==> AllAre(cs, ConstRow(v), conj)
    {
      PrintedListMeans(es, cs, conj, arrays, env, v);
    }
  }

  lemma PrintedListMeans(es: seq<Pred>, cs: seq<Constraint>, conj: bool, arrays: bool, env: Env, v: Value)
    requires |es| == |cs| && forall m :: 0 <= m < |cs| ==> PrintsConstraint(es[m], cs[m], arrays)
    ensures (EvalList(conj, es, env, v) == True <==> conj) <==> AllAre(cs, ConstRow(v), conj)
  {
    forall m | 0 <= m < |cs|
      ensures Wanted(false, Eval(es[m], env, v)) <==> Sat(cs[m], ConstRow(v))
    {
      assert PrintsConstraint(es[m], cs[m], arrays);
    }
    if conj {
      AndWanted(es, env, false, v);
    } else {
      OrWanted(es, env, false, v);
    }
  }

  /** The interval of a list of constraints on one column, by printing and compiling. */
  method ListInterval(cs: seq<Constraint>, conj: bool, ghost col: Col, arrays: bool) returns (i: Interval)
    requires |cs| > 0 && ValidParts(cs) && ColsOf(cs) <= {col}
    ensures i.Canonical() && forall v :: (i.Has(v) <==> conj) <==> AllAre(cs, ConstRow(v), conj)
  {
    var e := PrintList(cs, conj, col, arrays);
    ScopedConverts(e, arrays, false);
    var r := FromExpr(e, arrays, false);
    i := r.value;
    ghost var env: Env := (_, _) => Unknown;
    forall v { SelectsExact(e, arrays, false, env, v); }
  }

  // ----- flattening and deduplication -----

  /** A child counts as done once the loop has passed it or a merged interval stands for its column. */
  ghost predicate Done(cs: seq<Constraint>, k: nat, merged: set<Col>, m: nat)
    requires m < |cs|
  {
    m < k || (|Cols(cs[m])| == 1 && Cols(cs[m]) <= merged)
  }

  /** Where a single-column result comes from: a merged column, or a child alone on its column. */
  ghost predicate Origin(cs: seq<Constraint>, merged: set<Col>, k: nat, c: Constraint)
    requires k <= |cs|
  {
    |Cols(c)| == 1 ==>
      Cols(c) <= merged ||
      exists m, col :: 0 <= m < k && c == cs[m] && OnlyOn(cs[m], col) && |OnColumn(cs, col, true)| == 1
  }

  /** The results so far stand for exactly the children that are done. */
  ghost predicate DedupRows(cs: seq<Constraint>, conj: bool, k: nat, merged: set<Col>, out: seq<Constraint>) {
    forall row: Row :: AllAre(out, row, conj) <==>
                  forall m :: 0 <= m < |cs| && Done(cs, k, merged, m) ==> (Sat(cs[m], row) <==> conj)
  }

  ghost predicate DedupCols(cs: seq<Constraint>, k: nat, merged: set<Col>, out: seq<Constraint>) {
    && ColsOf(out) <= ColsOf(cs)
    && (forall m :: 0 <= m < |cs| && Done(cs, k, merged, m) ==> Cols(cs[m]) <= ColsOf(out))
  }

  ghost predicate DedupState(cs: seq<Constraint>, conj: bool, k: nat, merged: set<Col>, out: seq<Constraint>) {
    && k <= |cs| && ValidParts(out)
    && OnePerColumn(out)
    && (forall i :: 0 <= i < |out| ==> Origin(cs, merged, k, out[i]))
    && DedupRows(cs, conj, k, merged, out)
    && DedupCols(cs, k, merged, out)
    && (k > 0 || merged != {} ==> |out| > 0)
    && (forall i :: 0 <= i < |out| ==> out[i].Leaf? || out[i] in cs)
  }

  lemma AllAreAppend(cs: seq<Constraint>, c: Constraint, row: Row, b: bool)
    ensures AllAre(cs + [c], row, b) <==> AllAre(cs, row, b) && (Sat(c, row) <==> b)
  {
    assert forall k :: 0 <= k < |cs| ==> (cs + [c])[k] == cs[k];
    assert (cs + [c])[|cs|] == c;
  }

  lemma ColsOfAppend(cs: seq<Constraint>, c: Constraint)
    ensures ColsOf(cs + [c]) == ColsOf(cs) + Cols(c)
  {
    assert (cs + [c])[..|cs|] == cs;
  }

  /** No earlier result is on the given column, if that column is not merged and not done. */
  lemma NoEarlierResult(cs: seq<Constraint>, k: nat, merged: set<Col>, col: Col, c: Constraint)
    requires k < |cs| && OnlyOn(cs[k], col) && col !in merged && Origin(cs, merged, k, c)
    ensures Cols(c) != {col}
  {
    if Cols(c) == {col} {
      var m, other :| 0 <= m < k && c == cs[m] && OnlyOn(cs[m], other) && |OnColumn(cs, other, true)| == 1;
      assert other in Cols(c);
      OnColumnTwo(cs, col, m, k);
    }
  }

  lemma DedupKeepRow(cs: seq<Constraint>, conj: bool, k: nat, merged: set<Col>, out: seq<Constraint>, row: Row)
    requires k < |cs|
    requires AllAre(out, row, conj) <==>
             forall m :: 0 <= m < |cs| && Done(cs, k, merged, m) ==> (Sat(cs[m], row) <==> conj)
    ensures AllAre(out + [cs[k]], row, conj) <==>
            forall m :: 0 <= m < |cs| && Done(cs, k + 1, merged, m) ==> (Sat(cs[m], row) <==> conj)
  {
    AllAreAppend(out, cs[k], row, conj);
    assert forall m :: 0 <= m < |cs| ==> (Done(cs, k + 1, merged, m) <==> Done(cs, k, merged, m) || m == k);
  }

  lemma DedupKeepCols(cs: seq<Constraint>, k: nat, merged: set<Col>, out: seq<Constraint>)
    requires k < |cs| && DedupCols(cs, k, merged, out)
    ensures DedupCols(cs, k + 1, merged, out + [cs[k]])
  {
    ColsOfAppend(out, cs[k]);
    ColsOfSubset(cs, k);
    forall m | 0 <= m < |cs| && Done(cs, k + 1, merged, m)
      ensures Cols(cs[m]) <= ColsOf(out) + Cols(cs[k])
    {
      assert m == k || Done(cs, k, merged, m);
    }
  }

  /** Later positions only weaken what is known about the origin of a result. */
  lemma OriginLater(cs: seq<Constraint>, k: nat, merged: set<Col>, more: set<Col>, out: seq<Constraint>)
    requires k < |cs| && merged <= more && forall i :: 0 <= i < |out| ==> Origin(cs, merged, k, out[i])
    ensures forall i :: 0 <= i < |out| ==> Origin(cs, more, k + 1, out[i])
  {
    forall i | 0 <= i < |out|
      ensures Origin(cs, more, k + 1, out[i])
    {
      assert Origin(cs, merged, k, out[i]);
    }
  }

  /** A new result on a column without earlier results keeps the list at one per column. */
  lemma OnePerColumnAppend(out: seq<Constraint>, c: Constraint)
    requires OnePerColumn(out)
    requires |Cols(c)| == 1 ==> forall i :: 0 <= i < |out| ==> Cols(out[i]) != Cols(c)
    ensures OnePerColumn(out + [c])
  {
  }

  /** The child at k is kept as it is: it uses several columns, or is the only one on its column. */
  lemma DedupKeep(cs: seq<Constraint>, conj: bool, k: nat, merged: set<Col>, out: seq<Constraint>, col: Col)
    requires ValidParts(cs) && k < |cs| && DedupState(cs, conj, k, merged, out)
    requires |Cols(cs[k])| == 1 ==> OnlyOn(cs[k], col) && col !in merged && |OnColumn(cs, col, true)| == 1
    ensures DedupState(cs, conj, k + 1, merged, out + [cs[k]])
  {
    DedupKeepCols(cs, k, merged, out);
    assert DedupRows(cs, conj, k + 1, merged, out + [cs[k]]) by {
      forall row: Row
        ensures AllAre(out + [cs[k]], row, conj) <==>
                forall m :: 0 <= m < |cs| && Done(cs, k + 1, merged, m) ==> (Sat(cs[m], row) <==> conj)
      {
        DedupKeepRow(cs, conj, k, merged, out, row);
      }
    }
    OriginLater(cs, k, merged, merged, out);
    assert Origin(cs, merged, k + 1, cs[k]) by {
      if |Cols(cs[k])| == 1 {
        assert OnlyOn(cs[k], col);
      }
    }
    if |Cols(cs[k])| == 1 {
      forall i | 0 <= i < |out|
        ensures Cols(out[i]) != Cols(cs[k])
      {
        NoEarlierResult(cs, k, merged, col, out[i]);
      }
    }
    OnePerColumnAppend(out, cs[k]);
  }

  /** The child at k is already represented by a merged interval. */
  lemma DedupSkip(cs: seq<Constraint>, conj: bool, k: nat, merged: set<Col>, out: seq<Constraint>, col: Col)
    requires k < |cs| && DedupState(cs, conj, k, merged, out)
    requires OnlyOn(cs[k], col) && col in merged
    ensures DedupState(cs, conj, k + 1, merged, out)
  {
    assert Done(cs, k, merged, k);
    assert forall m :: 0 <= m < |cs| ==> (Done(cs, k + 1, merged, m) <==> Done(cs, k, merged, m));
    OriginLater(cs, k, merged, merged, out);
  }

  /** All children on the column of the child at k are replaced by one interval. */
  lemma DedupMerge(cs: seq<Constraint>, conj: bool, k: nat, merged: set<Col>, out: seq<Constraint>, col: Col, i: Interval)
    requires ValidParts(cs) && k < |cs| && DedupState(cs, conj, k, merged, out)
    requires OnlyOn(cs[k], col) && col !in merged && i.Canonical()
    requires forall v :: (i.Has(v) <==> conj) <==> AllAre(OnColumn(cs, col, true), ConstRow(v), conj)
    ensures DedupState(cs, conj, k + 1, merged + {col}, out + [Leaf(col, i)])
  {
    var leaf := Leaf(col, i);
    var merged' := merged + {col};
    ColsOfAppend(out, leaf);
    ColsOfSubset(cs, k);
    DoneMerge(cs, k, merged, col);
    assert DedupRows(cs, conj, k + 1, merged', out + [leaf]) by {
      forall row: Row
        ensures AllAre(out + [leaf], row, conj) <==>
                forall m :: 0 <= m < |cs| && Done(cs, k + 1, merged', m) ==> (Sat(cs[m], row) <==> conj)
      {
        DedupMergeRow(cs, conj, k, merged, out, col, i, row);
      }
    }
    OriginLater(cs, k, merged, merged', out);
    forall j | 0 <= j < |out|
      ensures Cols(out[j]) != Cols(leaf)
    {
      NoEarlierResult(cs, k, merged, col, out[j]);
    }
    OnePerColumnAppend(out, leaf);
  }

  lemma DedupMergeRow(cs: seq<Constraint>, conj: bool, k: nat, merged: set<Col>, out: seq<Constraint>, col: Col, i: Interval, row: Row)
    requires k < |cs| && OnlyOn(cs[k], col)
    requires forall v :: (i.Has(v) <==> conj) <==> AllAre(OnColumn(cs, col, true), ConstRow(v), conj)
    requires AllAre(out, row, conj) <==>
             forall m :: 0 <= m < |cs| && Done(cs, k, merged, m) ==> (Sat(cs[m], row) <==> conj)
    ensures AllAre(out + [Leaf(col, i)], row, conj) <==>
            forall m :: 0 <= m < |cs| && Done(cs, k + 1, merged + {col}, m) ==> (Sat(cs[m], row) <==> conj)
  {
    AllAreAppend(out, Leaf(col, i), row, conj);
    MergedLeaf(cs, conj, col, i, row);
    DoneMerge(cs, k, merged, col);
  }

  lemma MergedLeaf(cs: seq<Constraint>, conj: bool, col: Col, i: Interval, row: Row)
    requires forall v :: (i.Has(v) <==> conj) <==> AllAre(OnColumn(cs, col, true), ConstRow(v), conj)
    ensures (Sat(Leaf(col, i), row) <==> conj) <==>
            forall m :: 0 <= m < |cs| && OnlyOn(cs[m], col) ==> (Sat(cs[m], row) <==> conj)
  {
    OnColumnAllAre(cs, col, ConstRow(row(col)), conj);
    assert (i.Has(row(col)) <==> conj) <==> AllAre(OnColumn(cs, col, true), ConstRow(row(col)), conj);
    forall m | 0 <= m < |cs| && OnlyOn(cs[m], col)
      ensures Sat(cs[m], row) <==> Sat(cs[m], ConstRow(row(col)))
    {
      SatSingleColumn(cs[m], col, row);
    }
  }

  lemma DoneMerge(cs: seq<Constraint>, k: nat, merged: set<Col>, col: Col)
    requires k < |cs| && OnlyOn(cs[k], col)
    ensures forall m :: 0 <= m < |cs| ==>
              (Done(cs, k + 1, merged + {col}, m) <==> Done(cs, k, merged, m) || OnlyOn(cs[m], col))
  {
    forall m | 0 <= m < |cs|
      ensures Done(cs, k + 1, merged + {col}, m) <==> Done(cs, k, merged, m) || OnlyOn(cs[m], col)
    {
      SingletonCols(cs[m], col);
      if |Cols(cs[m])| == 1 && Cols(cs[m]) <= merged + {col} && col !in Cols(cs[m]) {
        assert Cols(cs[m]) <= merged;
      }
    }
  }

  /**
    Combines the children that are on one and the same column alone into one interval. From five
    children on a column map replaces the linear scan.
   */
  method Deduplicate(cs: seq<Constraint>, conj: bool, arrays: bool) returns (out: seq<Constraint>)
    requires ValidParts(cs) && |cs| > 0
    ensures ValidParts(out) && |out| > 0 && OnePerColumn(out) && ColsOf(out) == ColsOf(cs)
    ensures forall i :: 0 <= i < |out| ==> out[i].Leaf? || out[i] in cs
    ensures forall row: Row :: Sat(Node(conj, out), row) <==> Sat(Node(conj, cs), row)
  {
    out := [];
    var merged: set<Col> := {};
    var columnMap: map<Col, seq<Constraint>> := map[];
    if |cs| >= 5 {
      columnMap := BuildColumnMap(cs);
    }
    for k := 0 to |cs|
      invariant DedupState(cs, conj, k, merged, out)
    {
      var child := cs[k];
      if |Cols(child)| != 1 {
        DedupKeep(cs, conj, k, merged, out, 0);
        out := out + [child];
        continue;
      }
      var col :| col in Cols(child);
      SingletonCols(child, col);
      if col in merged {
        DedupSkip(cs, conj, k, merged, out, col);
        continue;
      }
      var group: seq<Constraint>;
      OnColumnMember(cs, col, k);
      if |cs| >= 5 {
        MappersAgree(columnMap, cs, k, col);
        group := columnMap[col];
      } else {
        group := LookupLinear(cs, col, true);
      }
      if |group| == 1 {
        DedupKeep(cs, conj, k, merged, out, col);
        out := out + [child];
        continue;
      }
      GroupOnColumn(cs, col);
      var i := ListInterval(group, conj, col, arrays);
      DedupMerge(cs, conj, k, merged, out, col, i);
      out := out + [Leaf(col, i)];
      merged := merged + {col};
    }
    forall col | col in ColsOf(cs)
      ensures col in ColsOf(out)
    {
      ColsOfMember(cs, col);
    }
    forall row: Row
      ensures Sat(Node(conj, out), row) <==> Sat(Node(conj, cs), row)
    {
      NodeSat(conj, out, row);
      NodeSat(conj, cs, row);
      assert forall m :: 0 <= m < |cs| ==> Done(cs, |cs|, merged, m);
    }
  }

  lemma GroupOnColumn(cs: seq<Constraint>, col: Col)
    requires ValidParts(cs)
    ensures ValidParts(OnColumn(cs, col, true)) && ColsOf(OnColumn(cs, col, true)) <= {col}
  {
    var group := OnColumn(cs, col, true);
    forall m | 0 <= m < |group|
      ensures OnlyOn(group[m], col) && group[m] in cs
    {
      OnColumnOrigin(cs, col, true, group[m]);
      SingletonCols(group[m], col);
    }
    forall other | other in ColsOf(group)
      ensures other == col
    {
      ColsOfMember(group, other);
    }
  }

  /** A child of another kind than the node, or a grandchild through a child of the same kind. */
  ghost predicate FromChild(c: Constraint, cs: seq<Constraint>, conj: bool) {
    exists k :: 0 <= k < |cs| && c in SameKindParts(cs[k], conj)
  }

  /** No conjunction directly below a conjunction, and no disjunction directly below a disjunction. */
  ghost predicate IsFlat(c: Constraint) {
    match c
    case Leaf(_, _) => true
    case Conj(parts) => forall k :: 0 <= k < |parts| ==> IsFlat(parts[k]) && !parts[k].Conj?
    case Disj(parts) => forall k :: 0 <= k < |parts| ==> IsFlat(parts[k]) && !parts[k].Disj?
  }

  ghost predicate AllFlat(cs: seq<Constraint>) {
    forall k :: 0 <= k < |cs| ==> IsFlat(cs[k])
  }

  lemma FromFlatChild(c: Constraint, cs: seq<Constraint>, conj: bool)
    requires AllFlat(cs) && FromChild(c, cs, conj)
    ensures IsFlat(c) && (conj ==> !c.Conj?) && (!conj ==> !c.Disj?)
  {
    var k :| 0 <= k < |cs| && c in SameKindParts(cs[k], conj);
    assert IsFlat(cs[k]);
  }

  /** The rows of the output so far are those of the children passed. */
  ghost predicate FlatRows(out: seq<Constraint>, passed: seq<Constraint>, conj: bool) {
    forall row: Row :: AllAre(out, row, conj) <==> AllAre(passed, row, conj)
  }

  ghost predicate FlatState(out: seq<Constraint>, cs: seq<Constraint>, k: nat, conj: bool) {
    && k <= |cs| && ValidParts(out) && (k > 0 ==> |out| > 0)
    && ColsOf(out) == ColsOf(cs[..k])
    && FlatRows(out, cs[..k], conj)
    && forall i :: 0 <= i < |out| ==> FromChild(out[i], cs, conj)
  }

  lemma FlatStepRows(out: seq<Constraint>, passed: seq<Constraint>, c: Constraint, conj: bool)
    requires Valid(c) && FlatRows(out, passed, conj)
    ensures FlatRows(out + SameKindParts(c, conj), passed + [c], conj)
  {
    FlatPart(c, conj);
    forall row: Row
      ensures AllAre(out + SameKindParts(c, conj), row, conj) <==> AllAre(passed + [c], row, conj)
    {
      AllAreAppend(passed, c, row, conj);
      AllAreConcat(out, SameKindParts(c, conj), row, conj);
    }
  }

  lemma FlatStep(out: seq<Constraint>, cs: seq<Constraint>, k: nat, conj: bool)
    requires ValidParts(cs) && k < |cs| && FlatState(out, cs, k, conj)
    ensures FlatState(out + SameKindParts(cs[k], conj), cs, k + 1, conj)
  {
    var flat := SameKindParts(cs[k], conj);
    FlatPart(cs[k], conj);
    assert cs[..k + 1] == cs[..k] + [cs[k]];
    assert FlatRows(out + flat, cs[..k + 1], conj) by {
      FlatStepRows(out, cs[..k], cs[k], conj);
    }
    assert ColsOf(out + flat) == ColsOf(cs[..k + 1]) by {
      ColsOfAppend(cs[..k], cs[k]);
      ColsOfConcat(out, flat);
    }
    forall i | 0 <= i < |flat|
      ensures FromChild(flat[i], cs, conj)
    {
      assert flat[i] in SameKindParts(cs[k], conj);
    }
  }

  /** Replaces each child of the node's own kind by its children. */
  method Flatten(cs: seq<Constraint>, conj: bool) returns (out: seq<Constraint>)
    requires ValidParts(cs) && |cs| > 0
    ensures ValidParts(out) && |out| > 0 && ColsOf(out) == ColsOf(cs)
    ensures forall row: Row :: Sat(Node(conj, out), row) <==> Sat(Node(conj, cs), row)
    ensures forall i :: 0 <= i < |out| ==> FromChild(out[i], cs, conj)
    ensures conj && (forall k, m :: 0 <= k < |cs| && cs[k].Conj? && 0 <= m < |cs[k].parts| ==> !cs[k].parts[m].Conj?) ==>
              forall i :: 0 <= i < |out| ==> !out[i].Conj?
    ensures !conj && (forall k, m :: 0 <= k < |cs| && cs[k].Disj? && 0 <= m < |cs[k].parts| ==> !cs[k].parts[m].Disj?) ==>
              forall i :: 0 <= i < |out| ==> !out[i].Disj?
  {
    out := [];
    for k := 0 to |cs|
      invariant FlatState(out, cs, k, conj)
    {
      FlatStep(out, cs, k, conj);
      out := out + SameKindParts(cs[k], conj);
    }
    assert cs[..|cs|] == cs;
    forall row: Row
      ensures Sat(Node(conj, out), row) <==> Sat(Node(conj, cs), row)
    {
      NodeSat(conj, out, row);
      NodeSat(conj, cs, row);
    }
  }

  function SameKindParts(c: Constraint, conj: bool): seq<Constraint> {
    if c.Conj? && conj then c.parts else if c.Disj? && !conj then c.parts else [c]
  }

  lemma SingletonList(c: Constraint, conj: bool)
    ensures ColsOf([c]) == Cols(c)
    ensures forall row: Row :: AllAre([c], row, conj) <==> (Sat(c, row) <==> conj)
  {
    assert [c][..0] == [];
    assert ColsOf([]) == {};
    forall row: Row
      ensures AllAre([c], row, conj) <==> (Sat(c, row) <==> conj)
    {
      assert [c][0] == c;
    }
  }

  lemma FlatPart(c: Constraint, conj: bool)
    requires Valid(c)
    ensures ValidParts(SameKindParts(c, conj)) && |SameKindParts(c, conj)| > 0
    ensures ColsOf(SameKindParts(c, conj)) == Cols(c)
    ensures forall row: Row :: AllAre(SameKindParts(c, conj), row, conj) <==> (Sat(c, row) <==> conj)
  {
    if (c.Conj? && conj) || (c.Disj? && !conj) {
      FlatNode(c.parts, conj);
      assert c == Node(conj, c.parts);
    } else {
      SingletonList(c, conj);
      assert SameKindParts(c, conj) == [c];
    }
  }

  lemma FlatNode(parts: seq<Constraint>, conj: bool)
    ensures Cols(Node(conj, parts)) == ColsOf(parts)
    ensures forall row: Row :: AllAre(parts, row, conj) <==> (Sat(Node(conj, parts), row) <==> conj)
  {
    forall row: Row { NodeSat(conj, parts, row); }
  }

  lemma AllAreConcat(a: seq<Constraint>, b: seq<Constraint>, row: Row, t: bool)
    ensures AllAre(a + b, row, t) <==> AllAre(a, row, t) && AllAre(b, row, t)
  {
    assert forall k :: 0 <= k < |a| ==> (a + b)[k] == a[k];
    assert forall k :: 0 <= k < |b| ==> (a + b)[|a| + k] == b[k];
  }

  lemma ColsOfConcat(a: seq<Constraint>, b: seq<Constraint>)
    ensures ColsOf(a + b) == ColsOf(a) + ColsOf(b)
  {
    forall col
      ensures col in ColsOf(a + b) <==> col in ColsOf(a) || col in ColsOf(b)
    {
      ColsOfMember(a, col);
      ColsOfMember(b, col);
      ColsOfMember(a + b, col);
      assert forall k :: 0 <= k < |a| ==> (a + b)[k] == a[k];
      assert forall k :: 0 <= k < |b| ==> (a + b)[|a| + k] == b[k];
    }
  }

  /** The constructors: flatten, then combine what is on one column. */
  method Construct(conj: bool, cs: seq<Constraint>, arrays: bool) returns (c: Constraint)
    requires ValidParts(cs) && |cs| > 0
    ensures Valid(c) && Cols(c) == ColsOf(cs)
    ensures !c.Leaf? && c == Node(conj, c.parts) && OnePerColumn(c.parts)
    ensures AllFlat(cs) ==> IsFlat(c)
    ensures forall row: Row :: Sat(c, row) <==> Sat(Node(conj, cs), row)
  {
    var flat := Flatten(cs, conj);
    var parts := Deduplicate(flat, conj, arrays);
    c := Node(conj, parts);
    if AllFlat(cs) {
      forall i | 0 <= i < |parts| && !parts[i].Leaf?
        ensures IsFlat(parts[i]) && (conj ==> !parts[i].Conj?) && (!conj ==> !parts[i].Disj?)
      {
        FromFlatChild(parts[i], cs, conj);
      }
    }
  }

  /** A list of constraints as one: nothing, the only element, or a new node. */
  method Combine(conj: bool, cs: seq<Constraint>, arrays: bool) returns (c: Option<Constraint>)
    requires ValidParts(cs)
    ensures c.Some? <==> |cs| > 0
    ensures c.Some? ==> Valid(c.value) && Cols(c.value) <= ColsOf(cs)
    ensures c.Some? ==> forall row: Row :: Sat(c.value, row) <==> Sat(Node(conj, cs), row)
  {
    if |cs| == 0 {
      c := None;
    } else if |cs| == 1 {
      ColsOfSubset(cs, 0);
      c := Some(cs[0]);
      forall row: Row { NodeSat(conj, cs, row); }
    } else {
      var node := Construct(conj, cs, arrays);
      c := Some(node);
    }
  }
}
