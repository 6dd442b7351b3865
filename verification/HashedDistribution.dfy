/**
  Hashed distributions of rows over segments (CDistributionSpecHashed): when a derived
  distribution satisfies a required one, and what that says about where rows are.
 */
module HashedDistribution {
  import opened Options

  /** A scalar expression, or a binary coercible cast around one. */
  datatype Expr = Atom(id: nat) | Cast(arg: Expr)

  /**
    Hash keys, the two compatibility flags, for each key a list of equivalent expressions (if
    computed), and an equivalent specification (if any), which makes specifications a chain.
   */
  datatype Spec = Hashed(exprs: seq<Expr>, nullsColocated: bool, duplicateSensitive: bool,
                         equivExprs: Option<seq<seq<Expr>>>, equiv: Option<Spec>)

  datatype Distribution = AnyDistribution | NonSingleton | HashedOn(spec: Spec) | OtherDistribution

  predicate Valid(s: Spec) {
    && |s.exprs| > 0
    && (s.equivExprs.Some? && |s.equivExprs.value| > 0 ==> |s.equivExprs.value| == |s.exprs|)
    && (s.equiv.Some? ==> Valid(s.equiv.value))
  }

  /** The key lists of the specification and of all its equivalents. */
  function Chain(s: Spec): (lists: seq<seq<Expr>>)
    ensures |lists| > 0
  {
    [s.exprs] + if s.equiv.Some? then Chain(s.equiv.value) else []
  }

  function WithoutCasts(e: Expr): (r: Expr)
    ensures r.Atom?
  {
    if e.Cast? then WithoutCasts(e.arg) else e
  }

  /** Is the expression listed as equivalent to key k? */
  predicate EquivalentToKey(s: Spec, k: nat, e: Expr)
    requires Valid(s) && k < |s.exprs|
  {
    s.equivExprs.Some? && |s.equivExprs.value| > 0 && e in s.equivExprs.value[k]
  }

  predicate NullsCompatible(own: Spec, other: Spec) {
    own.nullsColocated || !other.nullsColocated
  }

  predicate DuplicatesCompatible(own: Spec, other: Spec) {
    own.duplicateSensitive || !other.duplicateSensitive
  }

  // ----- matching -----

  predicate KeyInOther(own: Spec, k: nat, other: Spec, m: nat)
    requires Valid(own) && Valid(other) && k < |own.exprs| && m < |other.exprs|
  {
    var e := WithoutCasts(own.exprs[k]);
    e == WithoutCasts(other.exprs[m]) || EquivalentToKey(other, m, e)
  }

  predicate KeyCovered(own: Spec, k: nat, other: Spec)
    requires Valid(own) && Valid(other) && k < |own.exprs|
  {
    exists m :: 0 <= m < |other.exprs| && KeyInOther(own, k, other, m)
  }

  /** The own keys are, up to casts and equivalence, among the other's. */
  predicate MatchesSubset(own: Spec, other: Spec)
    requires Valid(own) && Valid(other)
  {
    && |own.exprs| <= |other.exprs| && NullsCompatible(own, other) && DuplicatesCompatible(own, other)
    && forall k :: 0 <= k < |own.exprs| ==> KeyCovered(own, k, other)
  }

  method MatchSubset(own: Spec, other: Spec) returns (matches: bool)
    requires Valid(own) && Valid(other)
    ensures matches <==> MatchesSubset(own, other)
  {
    if |other.exprs| < |own.exprs| || !NullsCompatible(own, other) || !DuplicatesCompatible(own, other) {
      return false;
    }
    for outer := 0 to |own.exprs|
      invariant forall k :: 0 <= k < outer ==> KeyCovered(own, k, other)
    {
      var found := false;
      var inner := 0;
      while inner < |other.exprs| && !found
        invariant 0 <= inner <= |other.exprs|
        invariant found <==> exists m :: 0 <= m < inner && KeyInOther(own, outer, other, m)
      {
        var e := WithoutCasts(own.exprs[outer]);
        if e == WithoutCasts(other.exprs[inner]) {
          found := true;
        } else if other.equivExprs.Some? && |other.equivExprs.value| > 0 {
          found := e in other.equivExprs.value[inner];
        }
        assert found <==> KeyInOther(own, outer, other, inner);
        inner := inner + 1;
      }
      assert found <==> KeyCovered(own, outer, other);
      if !found {
        return false;
      }
    }
    return true;
  }

  predicate SameKey(own: Spec, other: Spec, k: nat)
    requires Valid(other) && k < |own.exprs| == |other.exprs|
  {
    own.exprs[k] == other.exprs[k] || EquivalentToKey(other, k, own.exprs[k])
  }

  /** Key by key the same, up to the other's equivalent expressions. */
  predicate MatchesKeys(own: Spec, other: Spec)
    requires Valid(own) && Valid(other)
  {
    && |own.exprs| == |other.exprs| && NullsCompatible(own, other) && own.duplicateSensitive == other.duplicateSensitive
    && forall k :: 0 <= k < |own.exprs| ==> SameKey(own, other, k)
  }

  method MatchKeys(own: Spec, other: Spec) returns (matches: bool)
    requires Valid(own) && Valid(other)
    ensures matches <==> MatchesKeys(own, other)
  {
    if |own.exprs| != |other.exprs| || !NullsCompatible(own, other) || own.duplicateSensitive != other.duplicateSensitive {
      return false;
    }
    for k := 0 to |own.exprs|
      invariant forall m :: 0 <= m < k ==> SameKey(own, other, m)
    {
      var same := other.exprs[k] == own.exprs[k];
      if !same {
        same := other.equivExprs.Some? && |other.equivExprs.value| > 0 && own.exprs[k] in other.equivExprs.value[k];
      }
      assert same <==> SameKey(own, other, k);
      if !same {
        return false;
      }
    }
    return true;
  }

  /** Each side is also tried through its equivalents; every such call shortens one of the two chains. */
  predicate Matches(own: Spec, other: Spec)
    requires Valid(own) && Valid(other)
    decreases |Chain(own)| + |Chain(other)|
  {
    (own.equiv.Some? && Matches(own.equiv.value, other)) ||
    (other.equiv.Some? && Matches(other.equiv.value, own)) ||
    MatchesKeys(own, other)
  }

  predicate Satisfies(own: Spec, required: Distribution)
    requires Valid(own) && (required.HashedOn? ==> Valid(required.spec))
    decreases own
  {
    if own.equiv.Some? && Satisfies(own.equiv.value, required) then true
    else if required.HashedOn? && Matches(own, required.spec) then true
    else if required.AnyDistribution? || required.NonSingleton? then true
    else required.HashedOn? && MatchesSubset(own, required.spec)
  }

  // ----- the comparisons in terms of keys and lists -----

  /** A subset match, spelled out: each own key has a place among the other's. */
  lemma SubsetMeans(own: Spec, other: Spec, k: nat) returns (m: nat)
    requires Valid(own) && Valid(other) && MatchesSubset(own, other) && k < |own.exprs|
    ensures |own.exprs| <= |other.exprs|
    ensures (other.nullsColocated ==> own.nullsColocated) && (other.duplicateSensitive ==> own.duplicateSensitive)
    ensures m < |other.exprs|
    ensures WithoutCasts(own.exprs[k]) == WithoutCasts(other.exprs[m]) ||
            (other.equivExprs.Some? && m < |other.equivExprs.value| && WithoutCasts(own.exprs[k]) in other.equivExprs.value[m])
  {
    assert KeyCovered(own, k, other);
    m :| 0 <= m < |other.exprs| && KeyInOther(own, k, other, m);
  }

  /** Completeness: own keys that are all among the required ones, or listed with them, satisfy, through any chain. */
  lemma SubsetSatisfies(own: Spec, required: Spec)
    requires Valid(own) && Valid(required) && |own.exprs| <= |required.exprs|
    requires (required.nullsColocated ==> own.nullsColocated) && (required.duplicateSensitive ==> own.duplicateSensitive)
    requires forall k :: 0 <= k < |own.exprs| ==>
               exists m :: 0 <= m < |required.exprs| &&
                 (WithoutCasts(own.exprs[k]) == WithoutCasts(required.exprs[m]) ||
                  (required.equivExprs.Some? && m < |required.equivExprs.value| && WithoutCasts(own.exprs[k]) in required.equivExprs.value[m]))
    ensures MatchesSubset(own, required) && Satisfies(own, HashedOn(required))
  {
    forall k | 0 <= k < |own.exprs|
      ensures KeyCovered(own, k, required)
    {
      var m :| 0 <= m < |required.exprs| &&
        (WithoutCasts(own.exprs[k]) == WithoutCasts(required.exprs[m]) ||
         (required.equivExprs.Some? && m < |required.equivExprs.value| && WithoutCasts(own.exprs[k]) in required.equivExprs.value[m]));
      assert KeyInOther(own, k, required, m);
    }
  }

  /** A key by key match, spelled out. */
  lemma KeysMean(own: Spec, other: Spec, k: nat)
    requires Valid(own) && Valid(other) && MatchesKeys(own, other) && k < |own.exprs|
    ensures |own.exprs| == |other.exprs|
    ensures (other.nullsColocated ==> own.nullsColocated) && own.duplicateSensitive == other.duplicateSensitive
    ensures own.exprs[k] == other.exprs[k] ||
            (other.equivExprs.Some? && k < |other.equivExprs.value| && own.exprs[k] in other.equivExprs.value[k])
  {
    assert SameKey(own, other, k);
  }

  lemma KeysSatisfy(own: Spec, required: Spec)
    requires Valid(own) && Valid(required) && |own.exprs| == |required.exprs|
    requires (required.nullsColocated ==> own.nullsColocated) && own.duplicateSensitive == required.duplicateSensitive
    requires forall k :: 0 <= k < |own.exprs| ==>
               own.exprs[k] == required.exprs[k] ||
               (required.equivExprs.Some? && k < |required.equivExprs.value| && own.exprs[k] in required.equivExprs.value[k])
    ensures MatchesKeys(own, required) && Satisfies(own, HashedOn(required))
  {
    forall k | 0 <= k < |own.exprs|
      ensures SameKey(own, required, k)
    {
      assert own.exprs[k] == required.exprs[k] ||
             (required.equivExprs.Some? && k < |required.equivExprs.value| && own.exprs[k] in required.equivExprs.value[k]);
    }
  }

  /** The other way round, without equivalent specifications: one own key that is neither decides for no. */
  lemma UncoveredKeyFails(own: Spec, required: Spec, k: nat)
    requires Valid(own) && Valid(required) && own.equiv.None? && required.equiv.None? && k < |own.exprs|
    requires forall m :: 0 <= m < |required.exprs| ==>
               WithoutCasts(own.exprs[k]) != WithoutCasts(required.exprs[m]) &&
               (required.equivExprs.Some? && m < |required.equivExprs.value| ==>
                  WithoutCasts(own.exprs[k]) !in required.equivExprs.value[m] && own.exprs[k] !in required.equivExprs.value[m])
    ensures !Satisfies(own, HashedOn(required))
  {
    if MatchesSubset(own, required) {
      var m := SubsetMeans(own, required, k);
      assert false;
    }
    if MatchesKeys(own, required) {
      KeysMean(own, required, k);
      assert false;
    }
  }

  /** So do incompatible flags and too many keys. */
  lemma IncompatibleFails(own: Spec, required: Spec)
    requires Valid(own) && Valid(required) && own.equiv.None? && required.equiv.None?
    requires |own.exprs| > |required.exprs| || (required.nullsColocated && !own.nullsColocated)
             || (required.duplicateSensitive && !own.duplicateSensitive)
    ensures !Satisfies(own, HashedOn(required))
  {
  }

  /** Equivalent specifications only help: each side may be replaced by its equivalent. */
  lemma EquivalentsHelp(own: Spec, other: Spec)
    requires Valid(own) && Valid(other)
    ensures MatchesKeys(own, other) ==> Matches(own, other)
    ensures own.equiv.Some? && Matches(own.equiv.value, other) ==> Matches(own, other)
    ensures other.equiv.Some? && Matches(other.equiv.value, own) ==> Matches(own, other)
    ensures Matches(own, other) ==> Satisfies(own, HashedOn(other))
    ensures own.equiv.Some? && Satisfies(own.equiv.value, HashedOn(other)) ==> Satisfies(own, HashedOn(other))
  {
  }

  // ----- which pairs of the two chains are compared -----

  /** The i-th specification of the chain. */
  function SpecAt(s: Spec, i: nat): (r: Spec)
    requires Valid(s) && i < |Chain(s)|
    ensures Valid(r)
    decreases i
  {
    if i == 0 then s else SpecAt(s.equiv.value, i - 1)
  }

  /**
    The comparison of the i-th own with the j-th other specification, in the directions in which
    it is made: the original specification against an equivalent of the other only backwards.
   */
  ghost predicate ComparedEqual(own: Spec, i: nat, other: Spec, j: nat)
    requires Valid(own) && Valid(other) && i < |Chain(own)| && j < |Chain(other)|
  {
    ((j == 0 || i > 0) && MatchesKeys(SpecAt(own, i), SpecAt(other, j))) ||
    (j > 0 && MatchesKeys(SpecAt(other, j), SpecAt(own, i)))
  }

  /** A match found by the recursion is one of these comparisons. */
  lemma {:induction false} MatchesFinds(own: Spec, other: Spec) returns (i: nat, j: nat)
    requires Valid(own) && Valid(other) && Matches(own, other)
    ensures i < |Chain(own)| && j < |Chain(other)| && ComparedEqual(own, i, other, j)
    decreases |Chain(own)| + |Chain(other)|
  {
    if own.equiv.Some? && Matches(own.equiv.value, other) {
      i, j := MatchesFinds(own.equiv.value, other);
      i := i + 1;
    } else if other.equiv.Some? && Matches(other.equiv.value, own) {
      j, i := MatchesFinds(other.equiv.value, own);
      j := j + 1;
    } else {
      i, j := 0, 0;
    }
  }

  /** Each of these comparisons is reached by the recursion. */
  lemma {:induction false} MatchesReaches(own: Spec, i: nat, other: Spec, j: nat)
    requires Valid(own) && Valid(other) && i < |Chain(own)| && j < |Chain(other)| && ComparedEqual(own, i, other, j)
    ensures Matches(own, other)
    decreases |Chain(own)| + |Chain(other)|
  {
    if j > 0 && MatchesKeys(SpecAt(other, j), SpecAt(own, i)) {
      if i > 0 && j > 0 && ComparedEqual(own.equiv.value, i - 1, other, j) {
        MatchesReaches(own.equiv.value, i - 1, other, j);
      } else {
        MatchesReaches(other.equiv.value, j - 1, own, i);
      }
    } else if i > 0 {
      if j > 0 {
        MatchesReaches(other.equiv.value, j - 1, own, i);
      } else {
        MatchesReaches(own.equiv.value, i - 1, other, j);
      }
    }
  }

  /** The recursion decides exactly whether one of these comparisons succeeds. */
  lemma MatchesExactly(own: Spec, other: Spec)
    requires Valid(own) && Valid(other)
    ensures Matches(own, other) <==>
            exists i, j :: 0 <= i < |Chain(own)| && 0 <= j < |Chain(other)| && ComparedEqual(own, i, other, j)
  {
    if Matches(own, other) {
      var i, j := MatchesFinds(own, other);
    }
    if i, j :| 0 <= i < |Chain(own)| && 0 <= j < |Chain(other)| && ComparedEqual(own, i, other, j) {
      MatchesReaches(own, i, other, j);
    }
  }

  /** Forwards unless the original specification meets an equivalent of the other, backwards only from such an equivalent. */
  lemma ComparedDirections(own: Spec, i: nat, other: Spec, j: nat)
    requires Valid(own) && Valid(other) && i < |Chain(own)| && j < |Chain(other)|
    ensures MatchesKeys(SpecAt(own, i), SpecAt(other, j)) && !(i == 0 && j > 0) ==> ComparedEqual(own, i, other, j)
    ensures MatchesKeys(SpecAt(other, j), SpecAt(own, i)) && j > 0 ==> ComparedEqual(own, i, other, j)
    ensures ComparedEqual(own, i, other, j) ==>
              MatchesKeys(SpecAt(own, i), SpecAt(other, j)) || (j > 0 && MatchesKeys(SpecAt(other, j), SpecAt(own, i)))
    ensures SpecAt(own, i).exprs == Chain(own)[i]
  {
    SpecAtChain(own, i);
  }

  lemma {:induction false} SpecAtChain(s: Spec, i: nat)
    requires Valid(s) && i < |Chain(s)|
    ensures SpecAt(s, i).exprs == Chain(s)[i]
    decreases i
  {
    if i > 0 {
      SpecAtChain(s.equiv.value, i - 1);
    }
  }

  /** The direction matters: here the keys are listed as equivalent to those of the other's equivalent, and missed. */
  lemma EquivalentOfOtherMissed()
    ensures exists own: Spec, other: Spec ::
              Valid(own) && Valid(other) && |Chain(other)| == 2 &&
              MatchesKeys(own, SpecAt(other, 1)) && !Satisfies(own, HashedOn(other))
  {
    var own := Hashed([Atom(0)], true, false, None, None);
    var second := Hashed([Atom(2)], true, false, Some([[Atom(0)]]), None);
    var other := Hashed([Atom(1)], true, false, None, Some(second));
    assert SpecAt(other, 1) == SpecAt(second, 0) == second;
    assert SameKey(own, second, 0);
    assert !SameKey(own, other, 0) && !SameKey(second, own, 0);
    assert !Matches(second, own) && !Matches(own, other);
    assert !KeyInOther(own, 0, other, 0);
    assert !KeyCovered(own, 0, other);
    assert !Satisfies(own, HashedOn(other));
    assert Valid(second) && Valid(own) && Valid(other);
    assert Chain(second) == [second.exprs] && Chain(other) == [other.exprs, second.exprs];
    assert MatchesKeys(own, SpecAt(other, 1));
  }

  ghost predicate MeetsAt(own: Spec, i: nat, required: Spec)
    requires Valid(own) && Valid(required) && i < |Chain(own)|
  {
    Matches(SpecAt(own, i), required) || MatchesSubset(SpecAt(own, i), required)
  }

  /** Satisfaction of a hashed requirement: some specification of the own chain matches it, or hashes on a subset. */
  lemma {:induction false} SatisfiesExactly(own: Spec, required: Spec)
    requires Valid(own) && Valid(required)
    ensures Satisfies(own, HashedOn(required)) <==> exists i :: 0 <= i < |Chain(own)| && MeetsAt(own, i, required)
    decreases own
  {
    assert MeetsAt(own, 0, required) <==> Matches(own, required) || MatchesSubset(own, required);
    if own.equiv.Some? {
      var next := own.equiv.value;
      SatisfiesExactly(next, required);
      if i :| 0 <= i < |Chain(next)| && MeetsAt(next, i, required) {
        assert MeetsAt(own, i + 1, required);
      }
      if i :| 0 < i < |Chain(own)| && MeetsAt(own, i, required) {
        assert MeetsAt(next, i - 1, required);
      }
    }
  }

  /** Requirements other than a hashed one: only "any" and "not on a single segment" are satisfied. */
  lemma {:induction false} SatisfiesUnhashed(own: Spec, required: Distribution)
    requires Valid(own) && !required.HashedOn?
    ensures Satisfies(own, required) <==> required.AnyDistribution? || required.NonSingleton?
    decreases own
  {
    if own.equiv.Some? {
      SatisfiesUnhashed(own.equiv.value, required);
    }
  }

  // ----- what it means for the rows -----

  type Row = nat

  type Segment = nat

  /** The value of each atomic expression in each row. */
  type Values = (nat, Row) -> int

  /** A binary coercible cast does not change the value. */
  function ValueOf(values: Values, e: Expr, row: Row): int {
    match e
    case Atom(id) => values(id, row)
    case Cast(arg) => ValueOf(values, arg, row)
  }

  ghost predicate EqualInEveryRow(values: Values, d: Expr, e: Expr) {
    forall row: Row :: ValueOf(values, d, row) == ValueOf(values, e, row)
  }

  ghost predicate AgreeOn(values: Values, keys: seq<Expr>, r: Row, s: Row) {
    forall k :: 0 <= k < |keys| ==> ValueOf(values, keys[k], r) == ValueOf(values, keys[k], s)
  }

  /** Rows that agree on the keys are on the same segment. */
  ghost predicate Colocates(values: Values, place: Row -> Segment, keys: seq<Expr>) {
    forall r: Row, s: Row :: AgreeOn(values, keys, r, s) ==> place(r) == place(s)
  }

  /** The placement is a function of every key list of the chain. */
  ghost predicate Describes(s: Spec, values: Values, place: Row -> Segment) {
    forall i :: 0 <= i < |Chain(s)| ==> Colocates(values, place, Chain(s)[i])
  }

  /** What is listed as equivalent to a key has its value in every row, all along the chain. */
  ghost predicate Faithful(s: Spec, values: Values)
    requires Valid(s)
  {
    && (forall k, e :: 0 <= k < |s.exprs| && EquivalentToKey(s, k, e) ==> EqualInEveryRow(values, e, s.exprs[k]))
    && (s.equiv.Some? ==> Faithful(s.equiv.value, values))
  }

  lemma {:induction false} CastsKeepValue(values: Values, e: Expr)
    ensures EqualInEveryRow(values, WithoutCasts(e), e)
    decreases e
  {
    if e.Cast? {
      CastsKeepValue(values, e.arg);
      forall row: Row
        ensures ValueOf(values, WithoutCasts(e), row) == ValueOf(values, e, row)
      {
        assert ValueOf(values, WithoutCasts(e.arg), row) == ValueOf(values, e.arg, row);
      }
    }
  }

  /** Two key lists of the same length with the same values in every row. */
  ghost predicate SameLists(values: Values, a: seq<Expr>, b: seq<Expr>) {
    |a| == |b| && forall k :: 0 <= k < |a| ==> EqualInEveryRow(values, a[k], b[k])
  }

  lemma SameListsColocate(values: Values, place: Row -> Segment, a: seq<Expr>, b: seq<Expr>)
    requires SameLists(values, a, b) && Colocates(values, place, a)
    ensures Colocates(values, place, b)
  {
    forall r: Row, s: Row | AgreeOn(values, b, r, s)
      ensures place(r) == place(s)
    {
      forall k | 0 <= k < |a|
        ensures ValueOf(values, a[k], r) == ValueOf(values, a[k], s)
      {
        assert EqualInEveryRow(values, a[k], b[k]);
      }
      assert AgreeOn(values, a, r, s);
    }
  }

  /** A match is between two lists, one of each chain, that are the same in every row. */
  lemma {:induction false} MatchesMeaning(own: Spec, other: Spec, values: Values) returns (i: nat, j: nat)
    requires Valid(own) && Valid(other) && Faithful(own, values) && Faithful(other, values)
    requires Matches(own, other)
    ensures i < |Chain(own)| && j < |Chain(other)| && SameLists(values, Chain(own)[i], Chain(other)[j])
    decreases |Chain(own)| + |Chain(other)|
  {
    if own.equiv.Some? && Matches(own.equiv.value, other) {
      i, j := MatchesMeaning(own.equiv.value, other, values);
      i := i + 1;
    } else if other.equiv.Some? && Matches(other.equiv.value, own) {
      j, i := MatchesMeaning(other.equiv.value, own, values);
      j := j + 1;
      SameListsSymmetric(values, Chain(other)[j], Chain(own)[i]);
    } else {
      i, j := 0, 0;
      forall k | 0 <= k < |own.exprs|
        ensures EqualInEveryRow(values, own.exprs[k], other.exprs[k])
      {
        assert SameKey(own, other, k);
      }
    }
  }

  lemma SameListsSymmetric(values: Values, a: seq<Expr>, b: seq<Expr>)
    requires SameLists(values, a, b)
    ensures SameLists(values, b, a)
  {
    forall k | 0 <= k < |a|
      ensures EqualInEveryRow(values, b[k], a[k])
    {
      assert EqualInEveryRow(values, a[k], b[k]);
    }
  }

  /** Rows that agree on a superset of the keys agree on the keys. */
  lemma SubsetColocates(own: Spec, other: Spec, values: Values, place: Row -> Segment)
    requires Valid(own) && Valid(other) && Faithful(other, values)
    requires MatchesSubset(own, other) && Colocates(values, place, own.exprs)
    ensures Colocates(values, place, other.exprs)
  {
    forall r: Row, s: Row | AgreeOn(values, other.exprs, r, s)
      ensures place(r) == place(s)
    {
      forall k | 0 <= k < |own.exprs|
        ensures ValueOf(values, own.exprs[k], r) == ValueOf(values, own.exprs[k], s)
      {
        assert KeyCovered(own, k, other);
        var m :| 0 <= m < |other.exprs| && KeyInOther(own, k, other, m);
        KeyValue(own, k, other, m, values);
        assert EqualInEveryRow(values, own.exprs[k], other.exprs[m]);
      }
      assert AgreeOn(values, own.exprs, r, s);
    }
  }

  lemma KeyValue(own: Spec, k: nat, other: Spec, m: nat, values: Values)
    requires Valid(own) && Valid(other) && Faithful(other, values) && k < |own.exprs| && m < |other.exprs|
    requires KeyInOther(own, k, other, m)
    ensures EqualInEveryRow(values, own.exprs[k], other.exprs[m])
  {
    var e := WithoutCasts(own.exprs[k]);
    CastsKeepValue(values, own.exprs[k]);
    CastsKeepValue(values, other.exprs[m]);
    forall row: Row
      ensures ValueOf(values, own.exprs[k], row) == ValueOf(values, other.exprs[m], row)
    {
      assert ValueOf(values, e, row) == ValueOf(values, own.exprs[k], row);
      assert ValueOf(values, WithoutCasts(other.exprs[m]), row) == ValueOf(values, other.exprs[m], row);
      if EquivalentToKey(other, m, e) {
        assert EqualInEveryRow(values, e, other.exprs[m]);
      }
    }
  }

  /**
    Satisfaction means co-location: if the derived specification describes where rows are, then
    some key list of the required chain has rows that agree on it on the same segment.
   */
  lemma {:induction false} SatisfiesColocates(own: Spec, required: Spec, values: Values, place: Row -> Segment) returns (j: nat)
    requires Valid(own) && Valid(required) && Faithful(own, values) && Faithful(required, values)
    requires Describes(own, values, place) && Satisfies(own, HashedOn(required))
    ensures j < |Chain(required)| && Colocates(values, place, Chain(required)[j])
    decreases own
  {
    if own.equiv.Some? && Satisfies(own.equiv.value, HashedOn(required)) {
      forall i | 0 <= i < |Chain(own.equiv.value)|
        ensures Colocates(values, place, Chain(own.equiv.value)[i])
      {
        assert Chain(own)[i + 1] == Chain(own.equiv.value)[i];
      }
      j := SatisfiesColocates(own.equiv.value, required, values, place);
    } else if Matches(own, required) {
      var i;
      i, j := MatchesMeaning(own, required, values);
      SameListsColocate(values, place, Chain(own)[i], Chain(required)[j]);
    } else {
      j := 0;
      assert Chain(own)[0] == own.exprs;
      SubsetColocates(own, required, values, place);
    }
  }
}
