/**
  One-column SQL predicates and their truth value under the three-valued logic of section 8.12
  of ISO/IEC 9075:1992; which values the interval compiler selects for a predicate, and how
  that selection relates to the truth value.
 */
module Predicates {
  import opened Options
  import opened Ranges
  import opened Intervals

  datatype Truth = True | False | Unknown

  datatype CmpOp = Eq | Neq | Lt | Le | Gt | Ge

  datatype Quantifier = Any | All

  /** `Opaque` stands for every expression that the compiler does not recognise. */
  datatype Pred =
    | IsNull
    | Cmp(op: CmpOp, c: Datum)
    | IsDistinctFrom(other: Option<Datum>)
    | Const(b: Truth)
    | ArrayCmp(aop: CmpOp, quant: Quantifier, items: seq<Option<Datum>>)
    | And(args: seq<Pred>)
    | Or(args: seq<Pred>)
    | Not(arg: Pred)
    | Opaque(id: nat)

  /** The truth value of each opaque expression, as a function of the column's value. */
  type Env = (nat, Value) -> Truth

  // ----- three-valued evaluation -----

  function Truly(b: bool): Truth {
    if b then True else False
  }

  function Not3(t: Truth): Truth {
    match t
    case True => False
    case False => True
    case Unknown => Unknown
  }

  function And3(s: Truth, t: Truth): Truth {
    if s == False || t == False then False
    else if s == True && t == True then True
    else Unknown
  }

  function Or3(s: Truth, t: Truth): Truth {
    Not3(And3(Not3(s), Not3(t)))
  }

  predicate Compare(op: CmpOp, x: Datum, c: Datum) {
    match op
    case Eq => x == c
    case Neq => x != c
    case Lt => x < c
    case Le => x <= c
    case Gt => x > c
    case Ge => x >= c
  }

  function CompareItem(op: CmpOp, v: Value, item: Option<Datum>): Truth {
    if v.Null? || item.None? then Unknown else Truly(Compare(op, v.x, item.value))
  }

  function EvalArray(op: CmpOp, quant: Quantifier, items: seq<Option<Datum>>, v: Value): Truth {
    if items == [] then (if quant == Any then False else True)
    else
      var first, rest := CompareItem(op, v, items[0]), EvalArray(op, quant, items[1..], v);
      if quant == Any then Or3(first, rest) else And3(first, rest)
  }

  function Eval(e: Pred, env: Env, v: Value): Truth
    decreases e, 1
  {
    match e
    case IsNull => Truly(v.Null?)
    case Cmp(op, c) => if v.Null? then Unknown else Truly(Compare(op, v.x, c))
    case IsDistinctFrom(other) =>
      (match other
       case None => Truly(v.Val?)
       case Some(c) => Truly(v != Val(c)))
    case Const(b) => b
    case ArrayCmp(op, quant, items) => EvalArray(op, quant, items, v)
    case And(args) => EvalAnd(args, env, v)
    case Or(args) => EvalOr(args, env, v)
    case Not(arg) => Not3(Eval(arg, env, v))
    case Opaque(id) => env(id, v)
  }

  function EvalAnd(args: seq<Pred>, env: Env, v: Value): Truth
    decreases args, 0
  {
    if args == [] then True else And3(Eval(args[0], env, v), EvalAnd(args[1..], env, v))
  }

  function EvalOr(args: seq<Pred>, env: Env, v: Value): Truth
    decreases args, 0
  {
    if args == [] then False else Or3(Eval(args[0], env, v), EvalOr(args[1..], env, v))
  }

  /** A WHERE clause keeps a row when the predicate is true, a table constraint when it is not false. */
  predicate Wanted(inferNullsAs: bool, t: Truth) {
    if inferNullsAs then t != False else t == True
  }

  lemma {:induction false} AndWanted(args: seq<Pred>, env: Env, infer: bool, v: Value)
    ensures Wanted(infer, EvalAnd(args, env, v)) <==>
            forall k :: 0 <= k < |args| ==> Wanted(infer, Eval(args[k], env, v))
  {
    if args != [] {
      AndWanted(args[1..], env, infer, v);
      assert forall k :: 0 < k < |args| ==> args[k] == args[1..][k - 1];
      assert forall k :: 0 <= k < |args[1..]| ==> args[1..][k] == args[k + 1];
    }
  }

  lemma {:induction false} OrWanted(args: seq<Pred>, env: Env, infer: bool, v: Value)
    ensures Wanted(infer, EvalOr(args, env, v)) <==>
            exists k :: 0 <= k < |args| && Wanted(infer, Eval(args[k], env, v))
  {
    if args != [] {
      OrWanted(args[1..], env, infer, v);
      assert forall k :: 0 < k < |args| ==> args[k] == args[1..][k - 1];
      assert forall k :: 0 <= k < |args[1..]| ==> args[1..][k] == args[k + 1];
    }
  }

  lemma {:induction false} ArrayWanted(op: CmpOp, quant: Quantifier, items: seq<Option<Datum>>, infer: bool, v: Value)
    ensures quant == Any ==>
              (Wanted(infer, EvalArray(op, quant, items, v)) <==>
               exists k :: 0 <= k < |items| && Wanted(infer, CompareItem(op, v, items[k])))
    ensures quant == All ==>
              (Wanted(infer, EvalArray(op, quant, items, v)) <==>
               forall k :: 0 <= k < |items| ==> Wanted(infer, CompareItem(op, v, items[k])))
  {
    if items != [] {
      ArrayWanted(op, quant, items[1..], infer, v);
      assert forall k :: 0 < k < |items| ==> items[k] == items[1..][k - 1];
      assert forall k :: 0 <= k < |items[1..]| ==> items[1..][k] == items[k + 1];
    }
  }

  // ----- what the compiler accepts and selects -----

  /** What the compiler takes for granted: connectives have arguments, and an array is not all NULL. */
  predicate WellFormed(e: Pred) {
    match e
    case ArrayCmp(_, _, items) => items == [] || exists k :: 0 <= k < |items| && items[k].Some?
    case And(args) => |args| > 0 && forall k :: 0 <= k < |args| ==> WellFormed(args[k])
    case Or(args) => |args| > 0 && forall k :: 0 <= k < |args| ==> WellFormed(args[k])
    case Not(arg) => WellFormed(arg)
    case _ => true
  }

  /** Is an interval produced at all? `arrays` is the trace flag that enables array constraints. */
  predicate Converts(e: Pred, arrays: bool) {
    match e
    case ArrayCmp(op, _, items) => arrays && items != [] && (op == Eq || op == Neq)
    case And(args) => exists k :: 0 <= k < |args| && Converts(args[k], arrays)
    case Or(args) => forall k :: 0 <= k < |args| ==> Converts(args[k], arrays)
    case Not(arg) => Converts(arg, arrays)
    case Opaque(_) => false
    case _ => true
  }

  /**
    The values that end up in the interval. The quantifier and the NULLs of an array are ignored,
    a NULL constant counts as false, and a conjunction leaves out what does not convert.
   */
  predicate Selects(e: Pred, arrays: bool, infer: bool, v: Value)
    decreases e
  {
    match e
    case IsNull => v.Null?
    case Cmp(op, c) => if v.Null? then infer else Compare(op, v.x, c)
    case IsDistinctFrom(other) => if other.None? then v.Val? else v != Val(other.value)
    case Const(b) => b == True
    case ArrayCmp(op, _, items) =>
      if v.Null? then infer else if op == Eq then Some(v.x) in items else Some(v.x) !in items
    case And(args) =>
      forall k :: 0 <= k < |args| && Converts(args[k], arrays) ==> Selects(args[k], arrays, infer, v)
    case Or(args) => exists k :: 0 <= k < |args| && Selects(args[k], arrays, infer, v)
    case Not(arg) => !Selects(arg, arrays, !infer, v)
    case Opaque(_) => false
  }

  // ----- when the selection is exact -----

  /** All non-null elements of the array are equal. */
  predicate SingleValued(items: seq<Option<Datum>>) {
    forall i, j :: 0 <= i < |items| && 0 <= j < |items| && items[i].Some? && items[j].Some? ==> items[i] == items[j]
  }

  /**
    The exact condition for an array comparison: it is `= ANY` or `<> ALL` or has one value only,
    and if it holds a NULL, then NULLs are inferred as the quantifier would need them.
   */
  predicate ArrayScoped(op: CmpOp, quant: Quantifier, items: seq<Option<Datum>>, infer: bool) {
    && ((op == Eq && quant == Any) || (op == Neq && quant == All) || SingleValued(items))
    && (None in items ==> infer == (quant == All))
  }

  predicate Scoped(e: Pred, arrays: bool, infer: bool)
    decreases e
  {
    match e
    case Const(b) => b != Unknown || !infer
    case ArrayCmp(op, quant, items) => Converts(e, arrays) && ArrayScoped(op, quant, items, infer)
    case And(args) => |args| > 0 && forall k :: 0 <= k < |args| ==> Scoped(args[k], arrays, infer)
    case Or(args) => forall k :: 0 <= k < |args| ==> Scoped(args[k], arrays, infer)
    case Not(arg) => Scoped(arg, arrays, !infer)
    case Opaque(_) => false
    case _ => true
  }

  /** Comparisons with a constant are always in scope; so is what is put together from parts in scope. */
  lemma ScopedShapes(e: Pred, arrays: bool, infer: bool)
    ensures e.IsNull? || e.Cmp? || e.IsDistinctFrom? ==> Scoped(e, arrays, infer)
    ensures e.And? && |e.args| > 0 && (forall k :: 0 <= k < |e.args| ==> Scoped(e.args[k], arrays, infer)) ==> Scoped(e, arrays, infer)
    ensures e.Or? && (forall k :: 0 <= k < |e.args| ==> Scoped(e.args[k], arrays, infer)) ==> Scoped(e, arrays, infer)
    ensures e.Not? && Scoped(e.arg, arrays, !infer) ==> Scoped(e, arrays, infer)
  {
  }

  lemma {:induction false} ScopedConverts(e: Pred, arrays: bool, infer: bool)
    requires Scoped(e, arrays, infer)
    ensures Converts(e, arrays)
    decreases e
  {
    match e
    case And(args) =>
      ScopedConverts(args[0], arrays, infer);
    case Or(args) =>
      forall k | 0 <= k < |args| { ScopedConverts(args[k], arrays, infer); }
    case Not(arg) =>
      ScopedConverts(arg, arrays, !infer);
    case _ =>
  }

  /** Does the compiler select exactly the wanted values for this leaf? */
  ghost predicate ArrayExact(op: CmpOp, quant: Quantifier, items: seq<Option<Datum>>, infer: bool) {
    forall v :: Selects(ArrayCmp(op, quant, items), true, infer, v) <==> Wanted(infer, EvalArray(op, quant, items, v))
  }

  lemma ArrayScopedExact(op: CmpOp, quant: Quantifier, items: seq<Option<Datum>>, infer: bool)
    requires (op == Eq || op == Neq) && WellFormed(ArrayCmp(op, quant, items)) && items != []
    requires ArrayScoped(op, quant, items, infer)
    ensures ArrayExact(op, quant, items, infer)
  {
    var some :| 0 <= some < |items| && items[some].Some?;
    forall v
      ensures Selects(ArrayCmp(op, quant, items), true, infer, v) <==> Wanted(infer, EvalArray(op, quant, items, v))
    {
      ArrayWanted(op, quant, items, infer, v);
      if v.Val? && Some(v.x) in items {
        var k :| 0 <= k < |items| && items[k] == Some(v.x);
      }
    }
  }

  /** Outside the condition some value is selected wrongly: a NULL element decides for values not in the array. */
  lemma ArrayNullInexact(op: CmpOp, quant: Quantifier, items: seq<Option<Datum>>, infer: bool)
    requires (op == Eq && quant == Any) || (op == Neq && quant == All)
    requires None in items && infer != (quant == All)
    ensures !ArrayExact(op, quant, items, infer)
  {
    var x := FreshDatum(items);
    var v := Val(x);
    ArrayWanted(op, quant, items, infer, v);
    var n :| 0 <= n < |items| && items[n] == None;
    assert Wanted(infer, CompareItem(op, v, items[n])) == infer;
    assert Selects(ArrayCmp(op, quant, items), true, infer, v) <==> op == Neq;
  }

  /** A value larger than every element. */
  lemma {:induction false} FreshDatum(items: seq<Option<Datum>>) returns (x: Datum)
    ensures forall k :: 0 <= k < |items| && items[k].Some? ==> items[k].value < x
  {
    if items == [] {
      x := 0.0;
    } else {
      x := FreshDatum(items[1..]);
      assert forall k :: 0 < k < |items| ==> items[k] == items[1..][k - 1];
      if items[0].Some? && items[0].value >= x {
        x := items[0].value + 1.0;
      }
    }
  }

  /** With the wrong quantifier, two different elements make the first of them selected wrongly. */
  lemma ArrayQuantifierInexact(op: CmpOp, quant: Quantifier, items: seq<Option<Datum>>, infer: bool)
    requires (op == Eq && quant == All) || (op == Neq && quant == Any)
    requires !SingleValued(items)
    ensures !ArrayExact(op, quant, items, infer)
  {
    var i, j :| 0 <= i < |items| && 0 <= j < |items| && items[i].Some? && items[j].Some? && items[i] != items[j];
    var v := Val(items[i].value);
    ArrayWanted(op, quant, items, infer, v);
    assert Some(v.x) in items;
    assert CompareItem(op, v, items[j]) == Truly(op == Neq);
    assert Selects(ArrayCmp(op, quant, items), true, infer, v) <==> op == Eq;
  }

  /** With the wrong quantifier, one value and a NULL, that value is selected wrongly. */
  lemma ArraySingleNullInexact(op: CmpOp, quant: Quantifier, items: seq<Option<Datum>>, infer: bool)
    requires (op == Eq && quant == All) || (op == Neq && quant == Any)
    requires WellFormed(ArrayCmp(op, quant, items)) && SingleValued(items)
    requires None in items && infer != (quant == All)
    ensures !ArrayExact(op, quant, items, infer)
  {
    var i :| 0 <= i < |items| && items[i].Some?;
    var n :| 0 <= n < |items| && items[n] == None;
    var v := Val(items[i].value);
    ArrayWanted(op, quant, items, infer, v);
    assert Some(v.x) in items;
    assert CompareItem(op, v, items[n]) == Unknown;
    assert Selects(ArrayCmp(op, quant, items), true, infer, v) <==> op == Eq;
  }

  /** An array comparison is compiled exactly if and only if it is in scope. */
  lemma ArrayExactIffScoped(op: CmpOp, quant: Quantifier, items: seq<Option<Datum>>, infer: bool)
    requires (op == Eq || op == Neq) && WellFormed(ArrayCmp(op, quant, items)) && items != []
    ensures ArrayExact(op, quant, items, infer) <==> ArrayScoped(op, quant, items, infer)
  {
    if ArrayScoped(op, quant, items, infer) {
      ArrayScopedExact(op, quant, items, infer);
    } else if (op == Eq) == (quant == Any) {
      ArrayNullInexact(op, quant, items, infer);
    } else if SingleValued(items) {
      ArraySingleNullInexact(op, quant, items, infer);
    } else {
      ArrayQuantifierInexact(op, quant, items, infer);
    }
  }

  /** A boolean constant is compiled exactly unless it is NULL and NULLs are inferred as true. */
  lemma ConstExactIffScoped(b: Truth, arrays: bool, infer: bool, v: Value)
    ensures (Selects(Const(b), arrays, infer, v) <==> Wanted(infer, b)) <==> Scoped(Const(b), arrays, infer)
  {
  }

  /**
    Exactness. For a predicate of any nesting whose leaves are in scope, the selected values are
    those for which it is true, or, with NULLs inferred as true, those for which it is not false.
   */
  lemma {:induction false} SelectsExact(e: Pred, arrays: bool, infer: bool, env: Env, v: Value)
    requires WellFormed(e) && Scoped(e, arrays, infer)
    ensures Selects(e, arrays, infer, v) <==> Wanted(infer, Eval(e, env, v))
    decreases e
  {
    match e
    case ArrayCmp(op, quant, items) =>
      ArrayScopedExact(op, quant, items, infer);
      assert Selects(ArrayCmp(op, quant, items), true, infer, v) <==> Wanted(infer, EvalArray(op, quant, items, v));
    case And(args) =>
      AndWanted(args, env, infer, v);
      forall k | 0 <= k < |args|
        ensures Converts(args[k], arrays)
        ensures Selects(args[k], arrays, infer, v) <==> Wanted(infer, Eval(args[k], env, v))
      {
        ScopedConverts(args[k], arrays, infer);
        SelectsExact(args[k], arrays, infer, env, v);
      }
    case Or(args) =>
      OrWanted(args, env, infer, v);
      forall k | 0 <= k < |args|
        ensures Selects(args[k], arrays, infer, v) <==> Wanted(infer, Eval(args[k], env, v))
      {
        SelectsExact(args[k], arrays, infer, env, v);
      }
    case Not(arg) =>
      SelectsExact(arg, arrays, !infer, env, v);
    case _ =>
  }

  /**
    Conjunctions may hold parts that do not convert. Below an even number of negations such a part
    can only add values (`over`), below an odd number it can only remove some.
   */
  predicate OneSided(e: Pred, arrays: bool, infer: bool, over: bool)
    decreases e
  {
    match e
    case And(args) =>
      forall k :: 0 <= k < |args| ==>
        if Converts(args[k], arrays) then OneSided(args[k], arrays, infer, over) else over
    case Or(args) => forall k :: 0 <= k < |args| ==> OneSided(args[k], arrays, infer, over)
    case Not(arg) => OneSided(arg, arrays, !infer, !over)
    case _ => Scoped(e, arrays, infer)
  }

  /** Whatever the opaque parts evaluate to, no wanted value is missed, or no other value is selected. */
  lemma {:induction false} SelectsOneSided(e: Pred, arrays: bool, infer: bool, over: bool, env: Env, v: Value)
    requires WellFormed(e) && OneSided(e, arrays, infer, over)
    ensures over && Wanted(infer, Eval(e, env, v)) ==> Selects(e, arrays, infer, v)
    ensures !over && Selects(e, arrays, infer, v) ==> Wanted(infer, Eval(e, env, v))
    decreases e
  {
    match e
    case And(args) =>
      AndWanted(args, env, infer, v);
      forall k | 0 <= k < |args| && Converts(args[k], arrays)
        ensures over && Wanted(infer, Eval(args[k], env, v)) ==> Selects(args[k], arrays, infer, v)
        ensures !over && Selects(args[k], arrays, infer, v) ==> Wanted(infer, Eval(args[k], env, v))
      {
        SelectsOneSided(args[k], arrays, infer, over, env, v);
      }
    case Or(args) =>
      OrWanted(args, env, infer, v);
      forall k | 0 <= k < |args|
        ensures over && Wanted(infer, Eval(args[k], env, v)) ==> Selects(args[k], arrays, infer, v)
        ensures !over && Selects(args[k], arrays, infer, v) ==> Wanted(infer, Eval(args[k], env, v))
      {
        SelectsOneSided(args[k], arrays, infer, over, env, v);
      }
    case Not(arg) =>
      SelectsOneSided(arg, arrays, !infer, !over, env, v);
    case _ =>
      SelectsExact(e, arrays, infer, env, v);
  }

  // ----- what a left-out conjunct does -----

  /** Conjuncts the compiler converts exactly, among others that it does not recognise at all. */
  predicate OpaqueOrScoped(args: seq<Pred>, arrays: bool, infer: bool) {
    && |args| > 0
    && forall k :: 0 <= k < |args| ==> WellFormed(args[k]) && (args[k].Opaque? || Scoped(args[k], arrays, infer))
  }

  predicate HasOpaque(args: seq<Pred>) {
    exists k :: 0 <= k < |args| && args[k].Opaque?
  }

  /** No wanted value is missed, and no other one is selected, whatever the opaque parts evaluate to. */
  ghost predicate NothingMissed(e: Pred, arrays: bool, infer: bool, v: Value) {
    forall env: Env :: Wanted(infer, Eval(e, env, v)) ==> Selects(e, arrays, infer, v)
  }

  ghost predicate NothingAdded(e: Pred, arrays: bool, infer: bool, v: Value) {
    forall env: Env :: Selects(e, arrays, infer, v) ==> Wanted(infer, Eval(e, env, v))
  }

  /** What is added below a negation is missed above it, and the other way round. */
  lemma NotSwaps(e: Pred, arrays: bool, infer: bool, v: Value)
    ensures NothingMissed(Not(e), arrays, infer, v) <==> NothingAdded(e, arrays, !infer, v)
    ensures NothingAdded(Not(e), arrays, infer, v) <==> NothingMissed(e, arrays, !infer, v)
  {
    forall env: Env
      ensures Wanted(infer, Eval(Not(e), env, v)) <==> !Wanted(!infer, Eval(e, env, v))
    {
    }
    assert Selects(Not(e), arrays, infer, v) <==> !Selects(e, arrays, !infer, v);
  }

  lemma OpaqueConjunct(e: Pred, arrays: bool, infer: bool, env: Env, v: Value)
    requires WellFormed(e) && (e.Opaque? || Scoped(e, arrays, infer))
    ensures Converts(e, arrays) <==> !e.Opaque?
    ensures !e.Opaque? ==> (Selects(e, arrays, infer, v) <==> Wanted(infer, Eval(e, env, v)))
  {
    if !e.Opaque? {
      ScopedConverts(e, arrays, infer);
      SelectsExact(e, arrays, infer, env, v);
    }
  }

  /** The conjunction is selected where the converted conjuncts are wanted; it is wanted where the opaque ones are, too. */
  lemma OpaqueConjunction(args: seq<Pred>, arrays: bool, infer: bool, env: Env, v: Value)
    requires OpaqueOrScoped(args, arrays, infer)
    ensures Wanted(infer, Eval(And(args), env, v)) <==>
            Selects(And(args), arrays, infer, v) &&
            forall k :: 0 <= k < |args| && args[k].Opaque? ==> Wanted(infer, Eval(args[k], env, v))
  {
    AndWanted(args, env, infer, v);
    forall k | 0 <= k < |args|
      ensures Converts(args[k], arrays) <==> !args[k].Opaque?
      ensures !args[k].Opaque? ==> (Selects(args[k], arrays, infer, v) <==> Wanted(infer, Eval(args[k], env, v)))
    {
      OpaqueConjunct(args[k], arrays, infer, env, v);
    }
    assert Selects(And(args), arrays, infer, v) <==>
           forall k :: 0 <= k < |args| && !args[k].Opaque? ==> Wanted(infer, Eval(args[k], env, v));
  }

  /** In an environment in which every opaque expression is false, a conjunction with one is never wanted. */
  lemma AllFalse(args: seq<Pred>, arrays: bool, infer: bool, v: Value) returns (env: Env)
    requires OpaqueOrScoped(args, arrays, infer) && HasOpaque(args)
    ensures !Wanted(infer, Eval(And(args), env, v))
  {
    env := (id: nat, x: Value) => False;
    OpaqueConjunction(args, arrays, infer, env, v);
    var k :| 0 <= k < |args| && args[k].Opaque?;
    assert Eval(args[k], env, v) == False;
  }

  /** A conjunction misses nothing, and adds nothing exactly if no conjunct is opaque or the others already exclude the value. */
  lemma OpaqueAddsIff(args: seq<Pred>, arrays: bool, infer: bool, v: Value)
    requires OpaqueOrScoped(args, arrays, infer)
    ensures NothingMissed(And(args), arrays, infer, v)
    ensures NothingAdded(And(args), arrays, infer, v) <==> !HasOpaque(args) || !Selects(And(args), arrays, infer, v)
  {
    forall env: Env { OpaqueConjunction(args, arrays, infer, env, v); }
    if HasOpaque(args) {
      var env := AllFalse(args, arrays, infer, v);
    }
  }

  /**
    Below a negation the two change places: nothing is added, and nothing is missed exactly if no
    conjunct is opaque or the others already exclude the value.
   */
  lemma OpaqueBelowNotIff(args: seq<Pred>, arrays: bool, infer: bool, v: Value)
    requires OpaqueOrScoped(args, arrays, !infer)
    ensures NothingAdded(Not(And(args)), arrays, infer, v)
    ensures NothingMissed(Not(And(args)), arrays, infer, v) <==> !HasOpaque(args) || !Selects(And(args), arrays, !infer, v)
  {
    OpaqueAddsIff(args, arrays, !infer, v);
    NotSwaps(And(args), arrays, infer, v);
  }

  /** For instance, NOT (opaque AND x op c) misses a value exactly if the comparison is true of it, or unknown and wanted. */
  lemma OpaqueBelowNotMisses(id: nat, op: CmpOp, c: Datum, arrays: bool, infer: bool, v: Value)
    ensures NothingMissed(Not(And([Opaque(id), Cmp(op, c)])), arrays, infer, v) <==>
            !Wanted(!infer, if v.Null? then Unknown else Truly(Compare(op, v.x, c)))
  {
    var args := [Opaque(id), Cmp(op, c)];
    assert args[0].Opaque? && args[1] == Cmp(op, c);
    OpaqueBelowNotIff(args, arrays, infer, v);
    assert Converts(args[1], arrays) && !Converts(args[0], arrays);
  }

  // ----- opaque parts at any depth -----

  /** Every opaque part is below an even number of negations, or every one below an odd number. */
  predicate OpaqueAt(e: Pred, even: bool) {
    match e
    case And(args) => forall k :: 0 <= k < |args| ==> OpaqueAt(args[k], even)
    case Or(args) => forall k :: 0 <= k < |args| ==> OpaqueAt(args[k], even)
    case Not(arg) => OpaqueAt(arg, !even)
    case Opaque(_) => even
    case _ => true
  }

  /** The environment in which all opaque expressions have the same truth value everywhere. */
  function Everywhere(t: Truth): Env {
    (_: nat, _: Value) => t
  }

  /** The order in which AND is the minimum and OR the maximum. */
  predicate AtMost(s: Truth, t: Truth) {
    s == False || t == True || s == t
  }

  ghost predicate Below(low: Env, high: Env) {
    forall id, x :: AtMost(low(id, x), high(id, x))
  }

  /** The truth value goes up with the opaque parts below an even number of negations, down with the others. */
  lemma {:induction false} EvalMonotone(e: Pred, even: bool, low: Env, high: Env, v: Value)
    requires OpaqueAt(e, even) && Below(low, high)
    ensures if even then AtMost(Eval(e, low, v), Eval(e, high, v)) else AtMost(Eval(e, high, v), Eval(e, low, v))
    decreases e, 1
  {
    match e
    case And(args) => ListMonotone(args, even, low, high, v);
    case Or(args) => ListMonotone(args, even, low, high, v);
    case Not(arg) => EvalMonotone(arg, !even, low, high, v);
    case _ =>
  }

  lemma {:induction false} ListMonotone(args: seq<Pred>, even: bool, low: Env, high: Env, v: Value)
    requires Below(low, high) && forall k :: 0 <= k < |args| ==> OpaqueAt(args[k], even)
    ensures if even then AtMost(EvalAnd(args, low, v), EvalAnd(args, high, v)) else AtMost(EvalAnd(args, high, v), EvalAnd(args, low, v))
    ensures if even then AtMost(EvalOr(args, low, v), EvalOr(args, high, v)) else AtMost(EvalOr(args, high, v), EvalOr(args, low, v))
    decreases args, 0
  {
    if args != [] {
      EvalMonotone(args[0], even, low, high, v);
      ListMonotone(args[1..], even, low, high, v);
    }
  }

  /** So what is wanted in any environment is wanted in one extreme, and what is wanted in the other is wanted in all. */
  lemma WantedBounds(e: Pred, even: bool, infer: bool, env: Env, v: Value)
    requires OpaqueAt(e, even)
    ensures Wanted(infer, Eval(e, env, v)) ==> Wanted(infer, Eval(e, Everywhere(Truly(even)), v))
    ensures Wanted(infer, Eval(e, Everywhere(Truly(!even)), v)) ==> Wanted(infer, Eval(e, env, v))
  {
    EvalMonotone(e, even, env, Everywhere(True), v);
    EvalMonotone(e, even, Everywhere(False), env, v);
  }

  /** One environment tells whether a value is missed in any, and another whether it is added in any. */
  lemma OneEnvironmentDecides(e: Pred, even: bool, arrays: bool, infer: bool, v: Value)
    requires OpaqueAt(e, even)
    ensures NothingMissed(e, arrays, infer, v) <==>
            (Wanted(infer, Eval(e, Everywhere(Truly(even)), v)) ==> Selects(e, arrays, infer, v))
    ensures NothingAdded(e, arrays, infer, v) <==>
            (Selects(e, arrays, infer, v) ==> Wanted(infer, Eval(e, Everywhere(Truly(!even)), v)))
  {
    forall env: Env { WantedBounds(e, even, infer, env, v); }
  }

  /**
    Counting the negations above an opaque part is not enough; what matters is how many are above
    the conjunction that leaves it out. Here the opaque part is below one negation and its
    conjunction below none: what the comparison admits is added.
   */
  lemma OddNegationsAdd(id: nat, op: CmpOp, c: Datum, arrays: bool, infer: bool, v: Value)
    ensures var e := And([Not(Opaque(id)), Cmp(op, c)]);
            && WellFormed(e) && Converts(e, arrays) && OpaqueAt(e, false)
            && (NothingAdded(e, arrays, infer, v) <==> !Wanted(infer, if v.Null? then Unknown else Truly(Compare(op, v.x, c))))
  {
    var args := [Not(Opaque(id)), Cmp(op, c)];
    var env := Everywhere(True);
    assert args[0] == Not(Opaque(id)) && args[1] == Cmp(op, c);
    assert Converts(args[1], arrays) && !Converts(args[0], arrays);
    OneEnvironmentDecides(And(args), false, arrays, infer, v);
    assert Eval(args[0], env, v) == False;
    assert EvalAnd(args, env, v) == False;
  }

  /** One negation more, and the same values are missed although the opaque part is below two. */
  lemma EvenNegationsMiss(id: nat, op: CmpOp, c: Datum, arrays: bool, infer: bool, v: Value)
    ensures var e := Not(And([Not(Opaque(id)), Cmp(op, c)]));
            && WellFormed(e) && Converts(e, arrays) && OpaqueAt(e, true)
            && (NothingMissed(e, arrays, infer, v) <==> !Wanted(!infer, if v.Null? then Unknown else Truly(Compare(op, v.x, c))))
  {
    OddNegationsAdd(id, op, c, arrays, !infer, v);
    NotSwaps(And([Not(Opaque(id)), Cmp(op, c)]), arrays, infer, v);
  }

  /**
    Opaque parts may be anywhere except in a conjunction on the wrong side of the negations: there
    every conjunct must be in scope. No mention of which parts convert.
   */
  predicate SafeToDrop(e: Pred, arrays: bool, infer: bool, over: bool)
    decreases e
  {
    match e
    case And(args) =>
      forall k :: 0 <= k < |args| ==> if over then SafeToDrop(args[k], arrays, infer, over) else Scoped(args[k], arrays, infer)
    case Or(args) => forall k :: 0 <= k < |args| ==> SafeToDrop(args[k], arrays, infer, over)
    case Not(arg) => SafeToDrop(arg, arrays, !infer, !over)
    case Opaque(_) => true
    case _ => Scoped(e, arrays, infer)
  }

  /** What is in scope is safe on either side, and so is what is put together on that side. */
  lemma {:induction false} ScopedSafe(e: Pred, arrays: bool, infer: bool, over: bool)
    requires Scoped(e, arrays, infer)
    ensures SafeToDrop(e, arrays, infer, over)
    decreases e
  {
    match e
    case And(args) =>
      forall k | 0 <= k < |args| { ScopedSafe(args[k], arrays, infer, over); }
    case Or(args) =>
      forall k | 0 <= k < |args| { ScopedSafe(args[k], arrays, infer, over); }
    case Not(arg) =>
      ScopedSafe(arg, arrays, !infer, !over);
    case _ =>
  }

  lemma {:induction false} UnnegatedSafe(e: Pred, arrays: bool, infer: bool)
    requires Unnegated(e, arrays, infer)
    ensures SafeToDrop(e, arrays, infer, true)
    decreases e
  {
    match e
    case And(args) =>
      forall k | 0 <= k < |args| { UnnegatedSafe(args[k], arrays, infer); }
    case Or(args) =>
      forall k | 0 <= k < |args| { UnnegatedSafe(args[k], arrays, infer); }
    case Opaque(_) =>
    case _ =>
      ScopedSafe(e, arrays, infer, true);
  }

  lemma {:induction false} ScopedOneSided(e: Pred, arrays: bool, infer: bool, over: bool)
    requires Scoped(e, arrays, infer)
    ensures OneSided(e, arrays, infer, over)
    decreases e
  {
    match e
    case And(args) =>
      forall k | 0 <= k < |args|
        ensures Converts(args[k], arrays) && OneSided(args[k], arrays, infer, over)
      {
        ScopedConverts(args[k], arrays, infer);
        ScopedOneSided(args[k], arrays, infer, over);
      }
    case Or(args) =>
      forall k | 0 <= k < |args| { ScopedOneSided(args[k], arrays, infer, over); }
    case Not(arg) =>
      ScopedOneSided(arg, arrays, !infer, !over);
    case _ =>
  }

  /** If such a predicate converts at all, it converts on the safe side. */
  lemma {:induction false} SafeOneSided(e: Pred, arrays: bool, infer: bool, over: bool)
    requires SafeToDrop(e, arrays, infer, over) && Converts(e, arrays)
    ensures OneSided(e, arrays, infer, over)
    decreases e
  {
    match e
    case And(args) =>
      forall k | 0 <= k < |args|
        ensures if Converts(args[k], arrays) then OneSided(args[k], arrays, infer, over) else over
      {
        if !over {
          ScopedConverts(args[k], arrays, infer);
          ScopedOneSided(args[k], arrays, infer, over);
        } else if Converts(args[k], arrays) {
          SafeOneSided(args[k], arrays, infer, over);
        }
      }
    case Or(args) =>
      forall k | 0 <= k < |args| { SafeOneSided(args[k], arrays, infer, over); }
    case Not(arg) =>
      SafeOneSided(arg, arrays, !infer, !over);
    case _ =>
  }

  /** No opaque part is below a negation, and everything else is in scope. */
  predicate Unnegated(e: Pred, arrays: bool, infer: bool) {
    match e
    case And(args) => forall k :: 0 <= k < |args| ==> Unnegated(args[k], arrays, infer)
    case Or(args) => forall k :: 0 <= k < |args| ==> Unnegated(args[k], arrays, infer)
    case Opaque(_) => true
    case _ => Scoped(e, arrays, infer)
  }

  lemma UnnegatedShapes(e: Pred, arrays: bool, infer: bool)
    ensures e.Opaque? || Scoped(e, arrays, infer) ==> Unnegated(e, arrays, infer)
    ensures e.And? && (forall k :: 0 <= k < |e.args| ==> Unnegated(e.args[k], arrays, infer)) ==> Unnegated(e, arrays, infer)
    ensures e.Or? && (forall k :: 0 <= k < |e.args| ==> Unnegated(e.args[k], arrays, infer)) ==> Unnegated(e, arrays, infer)
    decreases e
  {
    if Scoped(e, arrays, infer) && (e.And? || e.Or?) {
      forall k | 0 <= k < |e.args| { UnnegatedShapes(e.args[k], arrays, infer); }
    }
  }

  /** Such a predicate is given up only if it tells nothing: for all that is known it is true of every value. */
  lemma {:induction false} GivenUpTellsNothing(e: Pred, arrays: bool, infer: bool, v: Value)
    requires WellFormed(e) && Unnegated(e, arrays, infer) && !Converts(e, arrays)
    ensures Eval(e, Everywhere(True), v) == True
    decreases e
  {
    match e
    case And(args) =>
      forall k | 0 <= k < |args| { GivenUpTellsNothing(args[k], arrays, infer, v); }
      AndWanted(args, Everywhere(True), false, v);
    case Or(args) =>
      var k :| 0 <= k < |args| && !Converts(args[k], arrays);
      GivenUpTellsNothing(args[k], arrays, infer, v);
      OrWanted(args, Everywhere(True), false, v);
    case Opaque(_) =>
    case _ =>
      ScopedConverts(e, arrays, infer);
  }
}
