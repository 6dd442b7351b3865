/**
  Splitting of a partition elimination predicate over the levels of a partitioned table
  (CPartitionPropagationSpec::SplitPartPredicates): an equality filter or a general filter for
  each level, and a residual for everything else.
 */
module PartPredicates {
  import opened Options
  import opened Intervals
  import opened Predicates
  import opened Connectives
  import opened Constraints

  /** A scalar operand: a column, or any other expression over the given columns. */
  datatype Scalar = Ident(col: Col) | Term(id: nat, cols: set<Col>)

  /** `Other` stands for every predicate that is neither a conjunction, an equality nor a constant. */
  datatype Filter =
    | Truth(b: Predicates.Truth)
    | Equal(left: Scalar, right: Scalar)
    | Other(id: nat, cols: set<Col>)
    | Both(args: seq<Filter>)

  /** Values of the uninterpreted operands and predicates in a row. */
  datatype Env = Env(term: (nat, Row) -> Value, pred: (nat, Row) -> Predicates.Truth)

  function ScalarCols(s: Scalar): set<Col> {
    if s.Ident? then {s.col} else s.cols
  }

  function UsedCols(f: Filter): set<Col>
    decreases f, 1
  {
    match f
    case Truth(_) => {}
    case Equal(left, right) => ScalarCols(left) + ScalarCols(right)
    case Other(_, cols) => cols
    case Both(args) => UsedColsOf(args)
  }

  function UsedColsOf(fs: seq<Filter>): set<Col>
    decreases fs, 0
  {
    if fs == [] then {} else UsedCols(fs[0]) + UsedColsOf(fs[1..])
  }

  function ScalarValue(s: Scalar, env: Env, row: Row): Value {
    if s.Ident? then row(s.col) else env.term(s.id, row)
  }

  function EvalFilter(f: Filter, env: Env, row: Row): Predicates.Truth
    decreases f, 1
  {
    match f
    case Truth(b) => b
    case Equal(left, right) =>
      var l, r := ScalarValue(left, env, row), ScalarValue(right, env, row);
      if l.Null? || r.Null? then Unknown else Truly(l == r)
    case Other(id, _) => env.pred(id, row)
    case Both(args) => EvalBoth(args, env, row)
  }

  function EvalBoth(fs: seq<Filter>, env: Env, row: Row): Predicates.Truth
    decreases fs, 0
  {
    if fs == [] then True else And3(EvalFilter(fs[0], env, row), EvalBoth(fs[1..], env, row))
  }

  lemma {:induction false} BothMeaning(fs: seq<Filter>, env: Env, row: Row)
    ensures EvalBoth(fs, env, row) == True <==> forall f :: f in fs ==> EvalFilter(f, env, row) == True
    ensures EvalBoth(fs, env, row) == False <==> exists f :: f in fs && EvalFilter(f, env, row) == False
  {
    if fs != [] {
      BothMeaning(fs[1..], env, row);
      assert fs[0] in fs;
      assert forall f :: f in fs[1..] ==> f in fs;
      assert forall f :: f in fs ==> f == fs[0] || f in fs[1..];
    }
  }

  lemma {:induction false} BothConcat(a: seq<Filter>, b: seq<Filter>, env: Env, row: Row)
    ensures EvalBoth(a + b, env, row) == And3(EvalBoth(a, env, row), EvalBoth(b, env, row))
  {
    BothMeaning(a, env, row);
    BothMeaning(b, env, row);
    BothMeaning(a + b, env, row);
    assert forall f :: f in a + b <==> f in a || f in b;
  }

  /** The conjuncts of a predicate, nested conjunctions taken apart. */
  function Conjuncts(f: Filter): seq<Filter>
    decreases f, 1
  {
    if f.Both? then ConjunctsOf(f.args) else [f]
  }

  function ConjunctsOf(fs: seq<Filter>): seq<Filter>
    decreases fs, 0
  {
    if fs == [] then [] else Conjuncts(fs[0]) + ConjunctsOf(fs[1..])
  }

  /** Nothing but conjunctions is taken apart, and every conjunct is listed as often as it occurs, in order. */
  lemma {:induction false} ConjunctsFlat(f: Filter)
    ensures forall g :: g in Conjuncts(f) ==> !g.Both?
    ensures !f.Both? ==> Conjuncts(f) == [f]
    decreases f, 1
  {
    if f.Both? {
      ConjunctsOfFlat(f.args);
    }
  }

  lemma {:induction false} ConjunctsOfFlat(fs: seq<Filter>)
    ensures forall g :: g in ConjunctsOf(fs) ==> !g.Both?
    decreases fs, 0
  {
    if fs != [] {
      ConjunctsFlat(fs[0]);
      ConjunctsOfFlat(fs[1..]);
    }
  }

  lemma {:induction false} ConjunctsConcat(a: seq<Filter>, b: seq<Filter>)
    ensures Conjuncts(Both(a + b)) == Conjuncts(Both(a)) + Conjuncts(Both(b))
    ensures |a| == 1 ==> Conjuncts(Both(a)) == Conjuncts(a[0])
  {
    if a == [] {
      assert a + b == b;
    } else {
      ConjunctsConcat(a[1..], b);
      assert (a + b)[1..] == a[1..] + b;
      assert ConjunctsOf(a[1..] + b) == ConjunctsOf(a[1..]) + ConjunctsOf(b);
    }
  }

  lemma {:induction false} ConjunctsMean(f: Filter, env: Env, row: Row)
    ensures EvalBoth(Conjuncts(f), env, row) == EvalFilter(f, env, row)
    decreases f, 1
  {
    if f.Both? {
      ConjunctsOfMean(f.args, env, row);
    } else {
      assert Conjuncts(f)[1..] == [];
      assert EvalBoth(Conjuncts(f), env, row) == And3(EvalFilter(f, env, row), EvalBoth([], env, row));
    }
  }

  lemma {:induction false} ConjunctsOfMean(fs: seq<Filter>, env: Env, row: Row)
    ensures EvalBoth(ConjunctsOf(fs), env, row) == EvalBoth(fs, env, row)
    decreases fs, 0
  {
    if fs != [] {
      ConjunctsMean(fs[0], env, row);
      ConjunctsOfMean(fs[1..], env, row);
      BothConcat(Conjuncts(fs[0]), ConjunctsOf(fs[1..]), env, row);
    }
  }

  // ----- where a conjunct goes -----

  function KeySet(keys: seq<Col>): (r: set<Col>)
    ensures forall col :: col in r <==> col in keys
  {
    set l | 0 <= l < |keys| :: keys[l]
  }

  /** The only partitioning key that the conjunct uses is that of level l. */
  predicate OnKey(f: Filter, keys: seq<Col>, l: nat)
    requires l < |keys|
  {
    UsedCols(f) * KeySet(keys) == {keys[l]}
  }

  /** The first level whose key is the only one used among the first n levels, if any. */
  function OwnerBelow(f: Filter, keys: seq<Col>, n: nat): (o: Option<nat>)
    requires n <= |keys|
    ensures o.Some? ==> o.value < n && OnKey(f, keys, o.value) && forall l :: 0 <= l < o.value ==> !OnKey(f, keys, l)
    ensures o.None? ==> forall l :: 0 <= l < n ==> !OnKey(f, keys, l)
  {
    if n == 0 then None
    else
      var before := OwnerBelow(f, keys, n - 1);
      if before.Some? then before else if OnKey(f, keys, n - 1) then Some(n - 1) else None
  }

  /** The level that takes the conjunct, or none: then it is residual. */
  function Owner(f: Filter, keys: seq<Col>): (o: Option<nat>) {
    OwnerBelow(f, keys, |keys|)
  }

  /** In terms of the keys used: a conjunct with exactly one goes to the first level with that key, any other is residual. */
  lemma OwnerExactly(f: Filter, keys: seq<Col>)
    ensures Owner(f, keys) == None <==> |UsedCols(f) * KeySet(keys)| != 1
    ensures forall l :: 0 <= l < |keys| ==>
              (Owner(f, keys) == Some(l) <==> keys[l] !in keys[..l] && UsedCols(f) * KeySet(keys) == {keys[l]})
  {
    var used := UsedCols(f) * KeySet(keys);
    if |used| == 1 {
      var col :| col in used;
      SingletonSet(used, col);
      var l :| 0 <= l < |keys| && keys[l] == col;
      assert OnKey(f, keys, l);
    }
    if Owner(f, keys).Some? {
      var o := Owner(f, keys).value;
      assert used == {keys[o]};
      forall l | 0 <= l < |keys| && keys[l] == keys[o] && l != o
        ensures keys[l] in keys[..l]
      {
        assert l < o ==> !OnKey(f, keys, l);
        assert keys[..l][o] == keys[o];
      }
      forall m | 0 <= m < o
        ensures keys[..o][m] != keys[o]
      {
        assert !OnKey(f, keys, m);
      }
    }
  }

  /** The conjuncts that go to the given place, in their order. */
  function Share(fs: seq<Filter>, keys: seq<Col>, place: Option<nat>): seq<Filter> {
    if fs == [] then []
    else
      var init, last := fs[..|fs| - 1], fs[|fs| - 1];
      Share(init, keys, place) + (if Owner(last, keys) == place then [last] else [])
  }

  /** How often the list holds the conjunct. */
  function Count(fs: seq<Filter>, f: Filter): nat {
    multiset(fs)[f]
  }

  lemma CountAppend(fs: seq<Filter>, last: Filter, f: Filter)
    ensures Count(fs + [last], f) == Count(fs, f) + if f == last then 1 else 0
  {
    assert multiset(fs + [last]) == multiset(fs) + multiset([last]);
  }

  /** One more conjunct goes into the share of its own place only. */
  lemma ShareAppend(fs: seq<Filter>, last: Filter, keys: seq<Col>, place: Option<nat>, f: Filter)
    ensures Count(Share(fs + [last], keys, place), f) ==
            Count(Share(fs, keys, place), f) + if f == last && Owner(last, keys) == place then 1 else 0
  {
    assert (fs + [last])[..|fs|] == fs;
    if Owner(last, keys) == place {
      CountAppend(Share(fs, keys, place), last, f);
    } else {
      assert Share(fs + [last], keys, place) == Share(fs, keys, place);
    }
  }

  /** Conservation: every conjunct is in the share of its place as often as in the list, and in no other share. */
  lemma {:induction false} ShareConserves(fs: seq<Filter>, keys: seq<Col>, place: Option<nat>, f: Filter)
    ensures Count(Share(fs, keys, place), f) == if Owner(f, keys) == place then Count(fs, f) else 0
  {
    if fs != [] {
      var init, last := fs[..|fs| - 1], fs[|fs| - 1];
      assert fs == init + [last];
      ShareConserves(init, keys, place, f);
      ShareAppend(init, last, keys, place, f);
      CountAppend(init, last, f);
    }
  }

  lemma ShareMember(fs: seq<Filter>, keys: seq<Col>, place: Option<nat>, f: Filter)
    ensures f in Share(fs, keys, place) <==> f in fs && Owner(f, keys) == place
  {
    ShareConserves(fs, keys, place, f);
    assert f in Share(fs, keys, place) <==> f in multiset(Share(fs, keys, place));
    assert f in fs <==> f in multiset(fs);
  }

  lemma ShareNothing(fs: seq<Filter>, keys: seq<Col>, place: Option<nat>)
    ensures Share(fs, keys, place) == [] <==> forall m :: 0 <= m < |fs| ==> Owner(fs[m], keys) != place
  {
    var share := Share(fs, keys, place);
    if share != [] {
      ShareMember(fs, keys, place, share[0]);
    }
    forall m | 0 <= m < |fs| && Owner(fs[m], keys) == place
      ensures share != []
    {
      ShareMember(fs, keys, place, fs[m]);
    }
  }

  /** A share of one conjunct comes from one position. */
  lemma {:induction false} SharePosition(fs: seq<Filter>, keys: seq<Col>, place: Option<nat>) returns (k: nat)
    requires |Share(fs, keys, place)| == 1
    ensures k < |fs| && Share(fs, keys, place) == [fs[k]]
    ensures forall m :: 0 <= m < |fs| ==> (Owner(fs[m], keys) == place <==> m == k)
  {
    var init := fs[..|fs| - 1];
    assert forall m :: 0 <= m < |init| ==> fs[m] == init[m];
    if Owner(fs[|fs| - 1], keys) == place {
      k := |fs| - 1;
      ShareNothing(init, keys, place);
    } else {
      k := SharePosition(init, keys, place);
    }
  }

  /** And one position gives a share of one conjunct. */
  lemma {:induction false} ShareOfPosition(fs: seq<Filter>, keys: seq<Col>, place: Option<nat>, k: nat)
    requires k < |fs| && forall m :: 0 <= m < |fs| ==> (Owner(fs[m], keys) == place <==> m == k)
    ensures Share(fs, keys, place) == [fs[k]]
  {
    var init := fs[..|fs| - 1];
    assert forall m :: 0 <= m < |init| ==> fs[m] == init[m];
    if k < |fs| - 1 {
      ShareOfPosition(init, keys, place, k);
    } else {
      ShareNothing(init, keys, place);
    }
  }

  // ----- the algorithm -----

  /** Positions of the conjuncts taken by the first n levels. */
  ghost predicate TakenBelow(used: set<nat>, fs: seq<Filter>, keys: seq<Col>, n: nat)
    requires n <= |keys|
  {
    forall k :: k in used <==> 0 <= k < |fs| && OwnerBelow(fs[k], keys, n).Some?
  }

  /** A level takes what earlier levels have left. */
  lemma OwnerAtLevel(f: Filter, keys: seq<Col>, l: nat)
    requires l < |keys|
    ensures Owner(f, keys) == Some(l) <==> OwnerBelow(f, keys, l).None? && OnKey(f, keys, l)
  {
  }

  /** The conjuncts on the key of level l that are not yet used; their positions are marked. */
  method PredicatesOnKey(fs: seq<Filter>, keys: seq<Col>, l: nat, used: set<nat>) returns (preds: seq<Filter>, used': set<nat>)
    requires l < |keys| && TakenBelow(used, fs, keys, l)
    ensures preds == Share(fs, keys, Some(l))
    ensures forall f :: f in preds <==> f in fs && keys[l] !in keys[..l] && UsedCols(f) * KeySet(keys) == {keys[l]}
    ensures TakenBelow(used', fs, keys, l + 1)
  {
    preds, used' := [], used;
    for k := 0 to |fs|
      invariant preds == Share(fs[..k], keys, Some(l))
      invariant forall m :: m in used' <==> m in used || (0 <= m < k && OwnerBelow(fs[m], keys, l + 1).Some?)
    {
      assert fs[..k + 1][..k] == fs[..k];
      OwnerAtLevel(fs[k], keys, l);
      if k in used' {
        continue;
      }
      var usedKeys := UsedCols(fs[k]) * KeySet(keys);
      if |usedKeys| == 1 && keys[l] in usedKeys {
        SingletonSet(usedKeys, keys[l]);
        preds := preds + [fs[k]];
        used' := used' + {k};
      }
    }
    assert fs[..|fs|] == fs;
    forall f
      ensures f in preds <==> f in fs && keys[l] !in keys[..l] && UsedCols(f) * KeySet(keys) == {keys[l]}
    {
      ShareMember(fs, keys, Some(l), f);
      OwnerExactly(f, keys);
    }
  }

  lemma {:induction false} EvalBothTruth(fs: seq<Filter>, env: Env, row: Row)
    ensures EvalBoth(fs, env, row) == TruthOf(true, fs, f => EvalFilter(f, env, row))
  {
    if fs != [] {
      EvalBothTruth(fs[1..], env, row);
    }
  }

  lemma {:induction false} UsedColsMember(fs: seq<Filter>, col: Col)
    ensures col in UsedColsOf(fs) <==> exists f :: f in fs && col in UsedCols(f)
  {
    if fs != [] {
      UsedColsMember(fs[1..], col);
      assert fs[0] in fs;
      assert forall f :: f in fs <==> f == fs[0] || f in fs[1..];
    }
  }

  /** The conjunction of a list, without `true` and cut short by `false`. */
  method Conjunction(fs: seq<Filter>) returns (f: Filter)
    ensures forall env, row: Row :: EvalFilter(f, env, row) == EvalBoth(fs, env, row)
    ensures UsedCols(f) <= UsedColsOf(fs)
    ensures f == Truth(True) <==> forall g :: g in fs ==> g == Truth(True)
  {
    var join := kept => Both(kept);
    f := ConjDisj(fs, Truth(True), Truth(False), join);
    forall env, row: Row
      ensures EvalFilter(f, env, row) == EvalBoth(fs, env, row)
    {
      EvalBothTruth(fs, env, row);
      EvalBothTruth(Without(fs, Truth(True)), env, row);
      FoldedTruth(true, fs, Truth(True), Truth(False), join, g => EvalFilter(g, env, row));
    }
    FoldedCols(fs, join);
  }

  lemma FoldedCols(fs: seq<Filter>, join: seq<Filter> -> Filter)
    requires join(Without(fs, Truth(True))) == Both(Without(fs, Truth(True)))
    ensures UsedCols(Folded(fs, Truth(True), Truth(False), join)) <= UsedColsOf(fs)
    ensures Folded(fs, Truth(True), Truth(False), join) == Truth(True) <==> forall g :: g in fs ==> g == Truth(True)
  {
    var kept := Without(fs, Truth(True));
    if kept != [] {
      assert kept[0] in kept && kept[0] in fs && kept[0] != Truth(True);
    }
    forall col | col in UsedCols(Folded(fs, Truth(True), Truth(False), join))
      ensures col in UsedColsOf(fs)
    {
      UsedColsMember(fs, col);
      UsedColsMember(kept, col);
    }
  }

  lemma SingleFilter(f: Filter, env: Env, row: Row)
    ensures EvalBoth([f], env, row) == EvalFilter(f, env, row)
  {
    BothMeaning([f], env, row);
  }

  /** Is the conjunct an equality with the column on one side? */
  predicate IdentEquality(f: Filter, col: Col) {
    f.Equal? && (f.left == Ident(col) || f.right == Ident(col))
  }

  function OtherSide(f: Filter, col: Col): Scalar
    requires IdentEquality(f, col)
  {
    if f.left == Ident(col) then f.right else f.left
  }

  /** The filter that the outputs put on a level: key = expression, a general filter, or nothing. */
  function LevelFilter(eqs: map<nat, Scalar>, filters: map<nat, Filter>, keys: seq<Col>, l: nat): Filter
    requires l < |keys|
  {
    if l in eqs then Equal(Ident(keys[l]), eqs[l]) else if l in filters then filters[l] else Truth(True)
  }

  /** The output for a level says what the level's share of the conjuncts says, in one of the two forms. */
  ghost predicate LevelDone(eqs: map<nat, Scalar>, filters: map<nat, Filter>, fs: seq<Filter>, keys: seq<Col>, l: nat)
    requires l < |keys|
  {
    var share := Share(fs, keys, Some(l));
    && !(l in eqs && l in filters)
    && (l in eqs <==> |share| == 1 && IdentEquality(share[0], keys[l]))
    && (l in eqs ==> eqs[l] == OtherSide(share[0], keys[l]))
    && (share == [] <==> l !in eqs && l !in filters)
    && (l in filters ==> UsedCols(filters[l]) <= UsedColsOf(share))
    && (l in filters ==> forall env, row: Row :: EvalFilter(filters[l], env, row) == EvalBoth(share, env, row))
  }

  lemma LevelDoneFrame(eqs: map<nat, Scalar>, filters: map<nat, Filter>, eqs': map<nat, Scalar>, filters': map<nat, Filter>,
                       fs: seq<Filter>, keys: seq<Col>, n: nat)
    requires n <= |keys| && forall m :: 0 <= m < n ==> LevelDone(eqs, filters, fs, keys, m)
    requires forall m :: 0 <= m < n ==> (m in eqs <==> m in eqs') && (m in filters <==> m in filters')
    requires forall m :: 0 <= m < n && m in eqs ==> eqs[m] == eqs'[m]
    requires forall m :: 0 <= m < n && m in filters ==> filters[m] == filters'[m]
    ensures forall m :: 0 <= m < n ==> LevelDone(eqs', filters', fs, keys, m)
  {
    forall m | 0 <= m < n
      ensures LevelDone(eqs', filters', fs, keys, m)
    {
      assert LevelDone(eqs, filters, fs, keys, m);
    }
  }

  /** Which levels have an output, in terms of the keys that the conjuncts use. */
  lemma LevelOutputs(eqs: map<nat, Scalar>, filters: map<nat, Filter>, fs: seq<Filter>, keys: seq<Col>, l: nat)
    requires l < |keys| && LevelDone(eqs, filters, fs, keys, l)
    ensures !(l in eqs && l in filters)
    ensures l in eqs || l in filters <==>
            keys[l] !in keys[..l] && exists f :: f in fs && UsedCols(f) * KeySet(keys) == {keys[l]}
  {
    var share := Share(fs, keys, Some(l));
    if share != [] {
      ShareMember(fs, keys, Some(l), share[0]);
      OwnerExactly(share[0], keys);
      assert share[0] in fs;
    }
    forall f | f in fs && keys[l] !in keys[..l] && UsedCols(f) * KeySet(keys) == {keys[l]}
      ensures share != []
    {
      OwnerExactly(f, keys);
      ShareMember(fs, keys, Some(l), f);
    }
  }

  /** An equality filter stands for the only conjunct on the key, which is an equality with it on one side. */
  lemma LevelEquality(eqs: map<nat, Scalar>, filters: map<nat, Filter>, fs: seq<Filter>, keys: seq<Col>, l: nat)
    requires l < |keys| && LevelDone(eqs, filters, fs, keys, l)
    ensures l in eqs ==>
              exists k ::
                && 0 <= k < |fs|
                && (forall m :: 0 <= m < |fs| ==> (UsedCols(fs[m]) * KeySet(keys) == {keys[l]} <==> m == k))
                && (fs[k] == Equal(Ident(keys[l]), eqs[l]) || fs[k] == Equal(eqs[l], Ident(keys[l])))
  {
    if l in eqs {
      var k := SharePosition(fs, keys, Some(l));
      OwnerExactly(fs[k], keys);
      forall m | 0 <= m < |fs|
        ensures UsedCols(fs[m]) * KeySet(keys) == {keys[l]} <==> m == k
      {
        OwnerExactly(fs[m], keys);
      }
      assert fs[k] == Equal(Ident(keys[l]), eqs[l]) || fs[k] == Equal(eqs[l], Ident(keys[l]));
    }
  }

  /** And every such conjunct has one. */
  lemma LevelHasEquality(eqs: map<nat, Scalar>, filters: map<nat, Filter>, fs: seq<Filter>, keys: seq<Col>, l: nat, k: nat)
    requires l < |keys| && LevelDone(eqs, filters, fs, keys, l) && k < |fs| && keys[l] !in keys[..l]
    requires forall m :: 0 <= m < |fs| ==> (UsedCols(fs[m]) * KeySet(keys) == {keys[l]} <==> m == k)
    requires fs[k].Equal? && (fs[k].left == Ident(keys[l]) || fs[k].right == Ident(keys[l]))
    ensures l in eqs
  {
    forall m | 0 <= m < |fs|
      ensures Owner(fs[m], keys) == Some(l) <==> m == k
    {
      OwnerExactly(fs[m], keys);
    }
    ShareOfPosition(fs, keys, Some(l), k);
  }

  /** A filter, and an equality filter, mentions no other key than that of its level. */
  lemma LevelCols(eqs: map<nat, Scalar>, filters: map<nat, Filter>, fs: seq<Filter>, keys: seq<Col>, l: nat)
    requires l < |keys| && LevelDone(eqs, filters, fs, keys, l)
    ensures l in eqs ==> ScalarCols(eqs[l]) * KeySet(keys) <= {keys[l]}
    ensures l in filters ==> UsedCols(filters[l]) * KeySet(keys) <= {keys[l]}
  {
    var share := Share(fs, keys, Some(l));
    if l in eqs {
      LevelEquality(eqs, filters, fs, keys, l);
    }
    forall col | l in filters && col in UsedCols(filters[l]) * KeySet(keys)
      ensures col == keys[l]
    {
      UsedColsMember(share, col);
      var f :| f in share && col in UsedCols(f);
      ShareMember(fs, keys, Some(l), f);
      OwnerExactly(f, keys);
      assert col in UsedCols(f) * KeySet(keys);
    }
  }

  /** The truth value of a share, in terms of the keys that the conjuncts use. */
  lemma ShareTruth(fs: seq<Filter>, keys: seq<Col>, place: Option<nat>, env: Env, row: Row)
    ensures EvalBoth(Share(fs, keys, place), env, row) == True <==>
              forall f :: f in fs && Owner(f, keys) == place ==> EvalFilter(f, env, row) == True
    ensures EvalBoth(Share(fs, keys, place), env, row) == False <==>
              exists f :: f in fs && Owner(f, keys) == place && EvalFilter(f, env, row) == False
  {
    BothMeaning(Share(fs, keys, place), env, row);
    forall f { ShareMember(fs, keys, place, f); }
  }

  /** A filter is true, or false, exactly if all, or some, conjuncts on the key of its level are. */
  lemma LevelTruth(eqs: map<nat, Scalar>, filters: map<nat, Filter>, fs: seq<Filter>, keys: seq<Col>, l: nat, env: Env, row: Row)
    requires l < |keys| && LevelDone(eqs, filters, fs, keys, l) && l in filters
    ensures EvalFilter(filters[l], env, row) == True <==>
              forall f :: f in fs && UsedCols(f) * KeySet(keys) == {keys[l]} ==> EvalFilter(f, env, row) == True
    ensures EvalFilter(filters[l], env, row) == False <==>
              exists f :: f in fs && UsedCols(f) * KeySet(keys) == {keys[l]} && EvalFilter(f, env, row) == False
  {
    LevelOutputs(eqs, filters, fs, keys, l);
    ShareTruth(fs, keys, Some(l), env, row);
    forall f
      ensures Owner(f, keys) == Some(l) <==> UsedCols(f) * KeySet(keys) == {keys[l]}
    {
      OwnerExactly(f, keys);
    }
  }

  method Split(pred: Filter, keys: seq<Col>)
    returns (eqs: map<nat, Scalar>, filters: map<nat, Filter>, residual: Option<Filter>)
    ensures forall l :: l in eqs ==> l < |keys| && ScalarCols(eqs[l]) * KeySet(keys) <= {keys[l]}
    ensures forall l :: l in filters ==> l < |keys| && UsedCols(filters[l]) * KeySet(keys) <= {keys[l]}
    ensures forall l :: 0 <= l < |keys| ==> LevelDone(eqs, filters, Conjuncts(pred), keys, l)
    ensures residual.None? <==>
              forall f :: f in Conjuncts(pred) && |UsedCols(f) * KeySet(keys)| != 1 ==> f == Truth(True)
    ensures residual.Some? ==> forall env, row: Row ::
              (EvalFilter(residual.value, env, row) == True <==>
               forall f :: f in Conjuncts(pred) && |UsedCols(f) * KeySet(keys)| != 1 ==> EvalFilter(f, env, row) == True)
    ensures residual.Some? ==> forall env, row: Row ::
              (EvalFilter(residual.value, env, row) == False <==>
               exists f :: f in Conjuncts(pred) && |UsedCols(f) * KeySet(keys)| != 1 && EvalFilter(f, env, row) == False)
    ensures forall env, row: Row :: EvalBoth(Rebuilt(eqs, filters, residual, keys), env, row) == EvalFilter(pred, env, row)
  {
    var fs := Conjuncts(pred);
    var used;
    eqs, filters, used := SplitLevels(fs, keys);
    residual := ResidualFilter(fs, keys, used);
    forall l | 0 <= l < |keys| { LevelCols(eqs, filters, fs, keys, l); }
    forall env, row: Row
      ensures EvalBoth(Rebuilt(eqs, filters, residual, keys), env, row) == EvalFilter(pred, env, row)
    {
      SplitPreservesMeaning(pred, keys, eqs, filters, residual, env, row);
    }
  }

  /** The loop over the levels. */
  method SplitLevels(fs: seq<Filter>, keys: seq<Col>) returns (eqs: map<nat, Scalar>, filters: map<nat, Filter>, used: set<nat>)
    ensures TakenBelow(used, fs, keys, |keys|)
    ensures forall l :: l in eqs || l in filters ==> l < |keys|
    ensures forall l :: 0 <= l < |keys| ==> LevelDone(eqs, filters, fs, keys, l)
  {
    used, eqs, filters := {}, map[], map[];
    for l := 0 to |keys|
      invariant TakenBelow(used, fs, keys, l)
      invariant forall m :: m in eqs || m in filters ==> m < l
      invariant forall m :: 0 <= m < l ==> LevelDone(eqs, filters, fs, keys, m)
    {
      var preds;
      preds, used := PredicatesOnKey(fs, keys, l, used);
      if |preds| == 0 {
        continue;
      }
      ghost var eqs', filters' := eqs, filters;
      if |preds| == 1 && IdentEquality(preds[0], keys[l]) {
        eqs := eqs[l := OtherSide(preds[0], keys[l])];
      } else {
        var filter := Conjunction(preds);
        filters := filters[l := filter];
      }
      LevelDoneFrame(eqs', filters', eqs, filters, fs, keys, l);
      assert LevelDone(eqs, filters, fs, keys, l);
    }
  }

  /** What no level has used; nothing if that is just `true`. */
  method ResidualFilter(fs: seq<Filter>, keys: seq<Col>, used: set<nat>) returns (residual: Option<Filter>)
    requires TakenBelow(used, fs, keys, |keys|)
    ensures forall env, row: Row ::
              (if residual.None? then True else EvalFilter(residual.value, env, row)) ==
              EvalBoth(Share(fs, keys, None), env, row)
    ensures residual.None? <==> forall f :: f in fs && |UsedCols(f) * KeySet(keys)| != 1 ==> f == Truth(True)
    ensures residual.Some? ==> forall env, row: Row ::
              (EvalFilter(residual.value, env, row) == True <==>
               forall f :: f in fs && |UsedCols(f) * KeySet(keys)| != 1 ==> EvalFilter(f, env, row) == True)
    ensures residual.Some? ==> forall env, row: Row ::
              (EvalFilter(residual.value, env, row) == False <==>
               exists f :: f in fs && |UsedCols(f) * KeySet(keys)| != 1 && EvalFilter(f, env, row) == False)
  {
    var unused: seq<Filter> := [];
    for k := 0 to |fs|
      invariant unused == Share(fs[..k], keys, None)
    {
      assert fs[..k + 1][..k] == fs[..k];
      if k !in used {
        unused := unused + [fs[k]];
      }
    }
    assert fs[..|fs|] == fs;
    var f := Conjunction(unused);
    residual := if f == Truth(True) then None else Some(f);
    forall g
      ensures g in unused <==> g in fs && |UsedCols(g) * KeySet(keys)| != 1
    {
      ShareMember(fs, keys, None, g);
      OwnerExactly(g, keys);
    }
    forall env, row: Row { BothMeaning(unused, env, row); }
  }

  // ----- nothing lost: the outputs together mean the original predicate -----

  /** The conjunction of what the outputs say: one filter for each level, and the residual. */
  function Rebuilt(eqs: map<nat, Scalar>, filters: map<nat, Filter>, residual: Option<Filter>, keys: seq<Col>): seq<Filter> {
    seq(|keys|, l requires 0 <= l < |keys| => LevelFilter(eqs, filters, keys, l)) +
    (if residual.None? then [] else [residual.value])
  }

  lemma LevelFilterMeans(eqs: map<nat, Scalar>, filters: map<nat, Filter>, fs: seq<Filter>, keys: seq<Col>, l: nat, env: Env, row: Row)
    requires l < |keys| && LevelDone(eqs, filters, fs, keys, l)
    ensures EvalFilter(LevelFilter(eqs, filters, keys, l), env, row) == EvalBoth(Share(fs, keys, Some(l)), env, row)
  {
    var share := Share(fs, keys, Some(l));
    if l in eqs {
      assert share == [share[0]];
      SingleFilter(share[0], env, row);
    }
  }

  /** The shares of all places together decide the truth value of the whole list. */
  lemma SharesDecide(fs: seq<Filter>, keys: seq<Col>, env: Env, row: Row)
    ensures EvalBoth(fs, env, row) == True <==>
              (forall l :: 0 <= l < |keys| ==> EvalBoth(Share(fs, keys, Some(l)), env, row) == True)
              && EvalBoth(Share(fs, keys, None), env, row) == True
    ensures EvalBoth(fs, env, row) == False <==>
              (exists l :: 0 <= l < |keys| && EvalBoth(Share(fs, keys, Some(l)), env, row) == False)
              || EvalBoth(Share(fs, keys, None), env, row) == False
  {
    BothMeaning(fs, env, row);
    forall place: Option<nat> { ShareTruth(fs, keys, place, env, row); }
    if f :| f in fs && EvalFilter(f, env, row) == False {
      assert EvalBoth(Share(fs, keys, Owner(f, keys)), env, row) == False;
    }
  }

  /** Main result: on every row the outputs have, together, the truth value of the original predicate. */
  lemma SplitPreservesMeaning(pred: Filter, keys: seq<Col>,
                              eqs: map<nat, Scalar>, filters: map<nat, Filter>, residual: Option<Filter>, env: Env, row: Row)
    requires forall l :: 0 <= l < |keys| ==> LevelDone(eqs, filters, Conjuncts(pred), keys, l)
    requires (if residual.None? then True else EvalFilter(residual.value, env, row)) ==
             EvalBoth(Share(Conjuncts(pred), keys, None), env, row)
    ensures EvalBoth(Rebuilt(eqs, filters, residual, keys), env, row) == EvalFilter(pred, env, row)
  {
    var fs := Conjuncts(pred);
    var levels := seq(|keys|, l requires 0 <= l < |keys| => LevelFilter(eqs, filters, keys, l));
    var rest := if residual.None? then [] else [residual.value];
    ConjunctsMean(pred, env, row);
    SharesDecide(fs, keys, env, row);
    forall l | 0 <= l < |keys|
      ensures EvalFilter(levels[l], env, row) == EvalBoth(Share(fs, keys, Some(l)), env, row)
    {
      LevelFilterMeans(eqs, filters, fs, keys, l, env, row);
    }
    LevelsDecide(levels, fs, keys, env, row);
    assert EvalBoth(rest, env, row) == EvalBoth(Share(fs, keys, None), env, row) by {
      if residual.Some? {
        SingleFilter(residual.value, env, row);
      }
    }
    BothConcat(levels, rest, env, row);
  }

  lemma LevelsDecide(levels: seq<Filter>, fs: seq<Filter>, keys: seq<Col>, env: Env, row: Row)
    requires |levels| == |keys|
    requires forall l :: 0 <= l < |keys| ==> EvalFilter(levels[l], env, row) == EvalBoth(Share(fs, keys, Some(l)), env, row)
    ensures EvalBoth(levels, env, row) == True <==>
              forall l :: 0 <= l < |keys| ==> EvalBoth(Share(fs, keys, Some(l)), env, row) == True
    ensures EvalBoth(levels, env, row) == False <==>
              exists l :: 0 <= l < |keys| && EvalBoth(Share(fs, keys, Some(l)), env, row) == False
  {
    BothMeaning(levels, env, row);
    assert forall l :: 0 <= l < |levels| ==> levels[l] in levels;
  }

  // ----- a level can be decided from its own key -----

  /** Uninterpreted operands and predicates depend on their columns only. */
  ghost predicate ScalarRespected(e: Scalar, env: Env) {
    e.Term? ==> forall r: Row, s: Row :: SameOn(e.cols, r, s) ==> env.term(e.id, r) == env.term(e.id, s)
  }

  ghost predicate Respected(f: Filter, env: Env) {
    match f
    case Truth(_) => true
    case Equal(left, right) => ScalarRespected(left, env) && ScalarRespected(right, env)
    case Other(id, cols) => forall r: Row, s: Row :: SameOn(cols, r, s) ==> env.pred(id, r) == env.pred(id, s)
    case Both(args) => forall k :: 0 <= k < |args| ==> Respected(args[k], env)
  }

  lemma {:induction false} ConjunctsRespected(f: Filter, env: Env)
    requires Respected(f, env)
    ensures forall g :: g in Conjuncts(f) ==> Respected(g, env)
    decreases f, 1
  {
    if f.Both? {
      ConjunctsOfRespected(f.args, env);
    }
  }

  lemma {:induction false} ConjunctsOfRespected(fs: seq<Filter>, env: Env)
    requires forall k :: 0 <= k < |fs| ==> Respected(fs[k], env)
    ensures forall g :: g in ConjunctsOf(fs) ==> Respected(g, env)
    decreases fs, 0
  {
    if fs != [] {
      ConjunctsRespected(fs[0], env);
      ConjunctsOfRespected(fs[1..], env);
    }
  }

  /** Then the truth value of a conjunct depends on the columns it uses only. */
  lemma DependsOnUsedCols(f: Filter, env: Env, r: Row, s: Row)
    requires !f.Both? && Respected(f, env) && SameOn(UsedCols(f), r, s)
    ensures EvalFilter(f, env, r) == EvalFilter(f, env, s)
  {
    match f
    case Equal(left, right) =>
      assert SameOn(ScalarCols(left), r, s) && SameOn(ScalarCols(right), r, s);
    case _ =>
  }

  /** What the split puts on a level does not change with the keys of the other levels. */
  lemma LevelIsLocal(pred: Filter, keys: seq<Col>, eqs: map<nat, Scalar>, filters: map<nat, Filter>, l: nat, env: Env, r: Row, s: Row)
    requires l < |keys| && LevelDone(eqs, filters, Conjuncts(pred), keys, l) && Respected(pred, env)
    requires forall col :: col !in keys || col == keys[l] ==> r(col) == s(col)
    ensures EvalFilter(LevelFilter(eqs, filters, keys, l), env, r) == EvalFilter(LevelFilter(eqs, filters, keys, l), env, s)
  {
    var fs := Conjuncts(pred);
    LevelFilterMeans(eqs, filters, fs, keys, l, env, r);
    LevelFilterMeans(eqs, filters, fs, keys, l, env, s);
    ShareTruth(fs, keys, Some(l), env, r);
    ShareTruth(fs, keys, Some(l), env, s);
    ConjunctsFlat(pred);
    ConjunctsRespected(pred, env);
    forall f | f in fs && Owner(f, keys) == Some(l)
      ensures EvalFilter(f, env, r) == EvalFilter(f, env, s)
    {
      OwnerExactly(f, keys);
      forall col | col in UsedCols(f)
        ensures r(col) == s(col)
      {
        assert col in keys ==> col in UsedCols(f) * KeySet(keys);
      }
      DependsOnUsedCols(f, env, r, s);
    }
  }
}
