# Verified model of the constraint and plan-property core of the ORCA optimizer

This Dafny project models the part of the optimizer library (`libgpopt`) that decides, from
predicates, which values of a column can occur, and some of the protocols by which plan operators
agree on properties. Everything is proved for all inputs; there is no bound on lists, trees or runs.

**Interval constraints.** A range is a possibly open, possibly infinite stretch of constants; an
interval is a sorted list of ranges and a NULL flag. The sweeps for intersection, union and
difference are modelled as the loops they are and proved exact, with the residual that the
difference carries along. Canonical lists are unique, and the algebraic laws, the equality of the
balanced and the plain union of many intervals, and the round trip through the printed predicate
all rest on that one theorem.

**Predicates.** A one-column predicate of any nesting is evaluated under the three-valued logic of
section 8.12 of ISO/IEC 9075:1992. The compiler to intervals is proved to select exactly the values
for which the predicate is true (or, with NULLs inferred as true, not false). Where the code is not
exact, the exact condition is proved instead: array comparisons ignore their quantifier and the
NULLs among their elements, NULL constants count as false, and a conjunction drops what it cannot
convert (which adds a value, or below a negation loses one, exactly if the other conjuncts do not
exclude it). With parts it does not recognise at any depth, what counts are the negations above the
conjunction that drops a part, not those above the part; if the latter are all even or all odd in
number, a single environment decides whether anything is missed or added.

**Constraint trees.** Conjunctions and disjunctions over many columns, with a row semantics:
flattening, per-column deduplication through either column mapper, projection (its rows are exactly
those of the tree with the other columns' intervals taken as true), remapping, contradiction,
containment with a table of remembered answers, and inference through equivalent columns. Containment
compares column by column; it is proved for which receivers its yes is always right and for which
arguments its no is.

**Protocols.** Use of common table expressions by worklist; producer and consumer requirements of
the children of an operator; counting of partition propagators; splitting of partition predicates;
satisfaction of hashed distributions, read as co-location of rows.

## How the source is represented

- Constants are `real` numbers: a dense order without end points. Difference and containment are
  also stated, in `AnyOrder`, over any type of constants and any comparator that orders them: yes to
  a containment question means inclusion in every order, and inclusion means yes in every dense one.
  Density is needed for completeness (`AnyOrder.IncompleteOnIntegers`) and for uniqueness
  (`Intervals.NotUniqueOnIntegers`).
- A pointer that may be NULL is an `Option`. Reference counts, memory pools and hash values are not
  represented; hash maps are maps, dynamic arrays are sequences.
- Code made of branches and calls is a function; a loop is a method with invariants; an object that
  changes is a class (`CteInfo.Info`, `CteRequirements.CteReq` and `CteMap`,
  `PartIndexMap.PartIndexMap`, `ConstraintContainment.MemoConstraint`, `PropConstraint.Property`).
- The trace flag for array constraints is the parameter `arrays`.
- An expression that the compiler does not recognise is `Opaque`, and an environment gives its truth
  value; results hold for every environment.
- Preconditions are what the original relies on: range lists are sorted, AND and OR have arguments,
  an array is not made of NULLs only (the original reads its first constant unconditionally), and a
  column with equivalents in the outer scope is in some class of its own scope (the original reads
  that class unconditionally).

Where code and comments differ, the code is followed: `FStartsBefore` and `FEndsAfter` also answer
true for two ranges that are both unbounded on that side, and the conversion of an array comparison
looks at the operator but not at ANY or ALL.

## Files

| file | content |
|---|---|
| `Options.dfy` | possibly missing values |
| `Ranges.dfy` | ranges and their end point comparisons |
| `Intervals.dfy` | intervals, uniqueness, algebraic laws |
| `IntervalSweeps.dfy` | intersection, union, difference, complement, containment, union of many |
| `AnyOrder.dfy` | difference and containment over any comparator |
| `Predicates.dfy` | predicates, three-valued evaluation, exactness |
| `Connectives.dfy` | conjunctions and disjunctions of lists, constants folded |
| `IntervalCompiler.dfy` | predicate to interval and back |
| `Constraints.dfy` | constraint trees and their rows |
| `ConstraintTrees.dfy` | column mappers, flattening, deduplication, constructors |
| `ConstraintProjection.dfy` | projection, remapping, conversion to an interval |
| `ConstraintContainment.dfy` | containment with remembered answers |
| `ArrayExpansion.dfy` | array comparisons expanded constant by constant |
| `PropConstraint.dfy` | equivalence classes and inference |
| `CteInfo.dfy`, `CteRequirements.dfy` | common table expressions |
| `PartIndexMap.dfy`, `PartPredicates.dfy` | partition propagation and predicates |
| `HashedDistribution.dfy` | hashed distributions |

## Model

| member | source | states |
|---|---|---|
| `Ranges.Range.Intersect` | libgpopt/src/base/CRange.cpp:505-545 | the result holds exactly the common points and is contained in both ranges; it is missing exactly when there is no common point |
| `Ranges.Range.DifferenceLeft` | libgpopt/src/base/CRange.cpp:559-585 | exactly the points in front of the other range's start; missing exactly when there are none |
| `Ranges.Range.DifferenceRight` | libgpopt/src/base/CRange.cpp:599-625 | exactly the points behind the other range's end; missing exactly when there are none |
| `Ranges.Range.Extend` | libgpopt/src/base/CRange.cpp:637-661 | merged range holds the points of both; for ranges from left to right it fails exactly when there is room between them; the precondition rules out comparing a missing end point |
| `Ranges.DisjointLeftMeaning` | libgpopt/src/base/CRange.cpp:142-164 | being disjoint to the left is the same as all points being smaller |
| `Ranges.ContainsMeaning` | libgpopt/src/base/CRange.cpp:175-180 | range containment, computed from end points, is inclusion of points, in both directions |
| `Ranges.PointMeaning` | libgpopt/src/base/CRange.cpp:388-392 | the end point test for a point is true exactly if the range holds a single constant |
| `Intervals.CanonicalUnique` | libgpopt/src/base/CConstraintInterval.cpp:1407-1435 | two sorted lists without mergeable neighbours that hold the same points are the same list |
| `Intervals.IntervalUnique` | libgpopt/src/base/CConstraintInterval.cpp:39-51 | canonical intervals with the same values, NULL included, are equal in list and flag |
| `Intervals.NotUniqueOnIntegers` | libgpopt/src/base/CConstraintInterval.cpp:1407-1435 | on the integers two different canonical intervals hold the same values |
| `Intervals.UnboundedMeaning` | libgpopt/src/base/CConstraintInterval.cpp:92-96 | the unboundedness test of a canonical interval is true exactly if every value is in it |
| `Intervals.ContradictionMeaning` | libgpopt/src/base/CConstraintInterval.cpp:77-80 | the contradiction test of a sorted interval is true exactly if no value is in it |
| `Intervals.Unbounded` | libgpopt/src/base/CConstraintInterval.cpp:1240-1259 | canonical, holds every constant, and NULL exactly if asked for |
| `Intervals.UnionCommutes` | libgpopt/src/base/CConstraintInterval.cpp:1093-1131 | unions in either order are the same list |
| `Intervals.UnionAssociates` | libgpopt/src/base/CConstraintInterval.cpp:1093-1131 | unions of three in either grouping are the same list |
| `Intervals.IntersectionCommutes` | libgpopt/src/base/CConstraintInterval.cpp:1044-1082 | intersections in either order are the same list |
| `Intervals.IntersectionAssociates` | libgpopt/src/base/CConstraintInterval.cpp:1044-1082 | intersections of three in either grouping are the same list |
| `Intervals.DeMorgan` | libgpopt/src/base/CConstraintInterval.cpp:1319-1329 | complement of a union and intersection of the complements are the same list |
| `Intervals.DeMorganDual` | libgpopt/src/base/CConstraintInterval.cpp:1319-1329 | complement of an intersection and union of the complements are the same list |
| `Intervals.DoubleComplement` | libgpopt/src/base/CConstraintInterval.cpp:1319-1329 | the complement of the complement of a canonical interval is that interval |
| `Intervals.DifferenceAsIntersection` | libgpopt/src/base/CConstraintInterval.cpp:1142-1194 | difference and intersection with the complement are the same list |
| `IntervalSweeps.AppendOrExtend` | libgpopt/src/base/CConstraintInterval.cpp:1407-1435 | appending to the right of a canonical list keeps it canonical, adds exactly the points of the range, and never compares a missing end point |
| `IntervalSweeps.AddRemainingRanges` | libgpopt/src/base/CConstraintInterval.cpp:1384-1395 | adds exactly the points of the remaining ranges, and the result is canonical even if the source list was only sorted |
| `IntervalSweeps.IntersectRanges` | libgpopt/src/base/CConstraintInterval.cpp:1044-1082 | exactly the common points; sorted, and canonical for canonical inputs although nothing is merged |
| `IntervalSweeps.UnionRanges` | libgpopt/src/base/CConstraintInterval.cpp:1093-1131 | exactly the points of either list, canonical for all sorted inputs |
| `IntervalSweeps.DiffWithRightResidual` | libgpopt/src/base/CConstraintInterval.cpp:1345-1372 | nothing if the second range lies in front; otherwise the residual is the part behind it, and the result is the part in front exactly if the first range does not end earlier or there is no such part |
| `IntervalSweeps.ResidualNotLost` | libgpopt/src/base/CConstraintInterval.cpp:1159-1178 | a residual is never in a position where the next step would drop it |
| `IntervalSweeps.DifferenceRanges` | libgpopt/src/base/CConstraintInterval.cpp:1142-1194 | exactly the points of the first list that are not in the second, canonical for all sorted inputs; the loop invariant says that the residual is the unprocessed part of the current range |
| `IntervalSweeps.Intersect` | libgpopt/src/base/CConstraintInterval.cpp:1044-1082 | values in both, NULL included |
| `IntervalSweeps.Union` | libgpopt/src/base/CConstraintInterval.cpp:1093-1131 | values in either, NULL included, canonical |
| `IntervalSweeps.Difference` | libgpopt/src/base/CConstraintInterval.cpp:1142-1194 | values in the first and not in the second, NULL included, canonical |
| `IntervalSweeps.Complement` | libgpopt/src/base/CConstraintInterval.cpp:1319-1329 | exactly the other values, NULL included, canonical |
| `IntervalSweeps.ContainsInterval` | libgpopt/src/base/CConstraintInterval.cpp:1205-1229 | true exactly for inclusion if the outer interval is canonical; for sorted ones exactly for inclusion unless only the inner one is unbounded in shape |
| `AnyOrder.PositionsEmbed` | libgpopt/include/gpopt/base/IComparator.h:41-67 | any order, seen from finitely many end points, is mapped into the real numbers such that no comparison with an end point changes |
| `AnyOrder.TestsAgree` | libgpopt/src/base/CRange.cpp:142-380 | every end point test has the same answer on constants and on their positions |
| `AnyOrder.AppendOrExtend` | libgpopt/src/base/CConstraintInterval.cpp:1407-1435 | on the positions of the end points it is the append step over numbers |
| `AnyOrder.DifferenceRanges` | libgpopt/src/base/CConstraintInterval.cpp:1142-1194 | for every comparator that orders the constants: canonical, and exactly the constants of the first list that are not in the second; empty exactly if the first list is within the second with all gaps filled |
| `AnyOrder.ContainsInterval` | libgpopt/src/base/CConstraintInterval.cpp:1205-1229 | yes means inclusion in every order; exactly inclusion in every dense order, and in any order exactly inclusion with all gaps filled, unless only the inner interval is unbounded in shape |
| `AnyOrder.IncompleteOnIntegers` | libgpopt/src/base/CConstraintInterval.cpp:1205-1229 | on the integers an interval that is included is not found to be |
| `IntervalSweeps.UnionPairs` | libgpopt/src/base/CConstraintInterval.cpp:626-652 | one round halves the list (rounded up) and keeps the set of values |
| `IntervalSweeps.UnionAll` | libgpopt/src/base/CConstraintInterval.cpp:621-658 | the reduction ends with the canonical interval of all values |
| `IntervalSweeps.PairwiseEqualsFold` | libgpopt/src/base/CConstraintInterval.cpp:621-658 | balanced reduction and plain left fold give the same list |
| `Predicates.ArrayExactIffScoped` | libgpopt/src/base/CConstraintInterval.cpp:210-315 | an array comparison is compiled exactly if and only if it is = ANY or <> ALL or has a single value, and a NULL element meets the matching NULL inference |
| `Predicates.ConstExactIffScoped` | libgpopt/src/base/CConstraintInterval.cpp:168-182 | a constant is compiled exactly unless it is NULL and NULLs are inferred as true |
| `Predicates.SelectsExact` | libgpopt/src/base/CConstraintInterval.cpp:121-197 | for every nesting of in-scope leaves the selected values are those for which the predicate is true, or not false if NULLs are inferred as true |
| `Predicates.SelectsOneSided` | libgpopt/src/base/CConstraintInterval.cpp:684-705 | with unconvertible conjuncts below an even number of negations only, no wanted value is missed; below an odd number only, no other value is selected |
| `Predicates.OpaqueAddsIff` | libgpopt/src/base/CConstraintInterval.cpp:684-705 | a conjunction never misses a value, and selects none wrongly if and only if nothing is dropped from it or its other conjuncts exclude the value |
| `Predicates.OpaqueBelowNotIff` | libgpopt/src/base/CConstraintInterval.cpp:684-705 | a negated conjunction never selects a value wrongly, and misses none if and only if nothing is dropped from it or its other conjuncts exclude the value |
| `Predicates.OpaqueBelowNotMisses` | libgpopt/src/base/CConstraintInterval.cpp:684-705 | the instance NOT (opaque AND comparison): a value is missed exactly if the comparison admits it |
| `Predicates.EvalMonotone` | libgpopt/src/base/CConstraintInterval.cpp:121-197 | under three-valued logic the truth value rises with unrecognised parts below an even number of negations and falls with those below an odd number |
| `Predicates.OneEnvironmentDecides` | libgpopt/src/base/CConstraintInterval.cpp:670-705 | if these parts are all below even, or all below odd numbers of negations, a value is missed in some environment exactly if it is in the one where all are true (false), and added in some exactly if in the opposite one |
| `Predicates.EvenNegationsMiss` | libgpopt/src/base/CConstraintInterval.cpp:670-705 | an even number of negations above an unrecognised part is not enough: NOT (NOT part AND comparison) misses exactly what the comparison admits |
| `Predicates.OddNegationsAdd` | libgpopt/src/base/CConstraintInterval.cpp:670-705 | nor is an odd number for the dual: (NOT part AND comparison) adds exactly what the comparison admits |
| `Predicates.SafeOneSided` | libgpopt/src/base/CConstraintInterval.cpp:592-705 | where only conjunctions on the right side of the negations have unrecognised parts, at any depth, and below OR as well, a predicate that converts does so on the safe side |
| `Predicates.GivenUpTellsNothing` | libgpopt/src/base/CConstraintInterval.cpp:592-705 | without negated unrecognised parts a predicate is given up only if it may be true of every value |
| `IntervalCompiler.SortedDistinct` | libgpopt/src/base/CDatumSortedSet.cpp:14-55 | strictly ascending, exactly the non-NULL constants; the flag tells whether there was a NULL |
| `IntervalCompiler.Distinct` | libgpopt/src/base/CDatumSortedSet.cpp:41-54 | the loop over a sorted array yields the same constants in strictly ascending order |
| `IntervalCompiler.CmpRange` | libgpopt/src/base/CRange.cpp:58-116 | the range of a comparison other than <> is valid and holds exactly the constants for which the comparison is true |
| `IntervalCompiler.CmpRanges` | libgpopt/src/base/CConstraintInterval.cpp:1478-1509 | canonical, and holds exactly the constants for which the comparison is true |
| `IntervalCompiler.ArrayRanges` | libgpopt/src/base/CConstraintInterval.cpp:256-307 | points for IN, the gaps between the constants for NOT IN |
| `IntervalCompiler.FromArrayCmp` | libgpopt/src/base/CConstraintInterval.cpp:210-315 | converts exactly non-empty = and <> comparisons, to the canonical interval of the constants in, or not in, the array, with NULL as inferred |
| `IntervalCompiler.FromExpr` | libgpopt/src/base/CConstraintInterval.cpp:144-197 | in scope an interval always results and holds exactly the wanted values, in every environment; with unrecognised parts it holds all wanted values, or only such, depending on the negations above the conjunctions that drop them; it is missing for an OR with such a part, present for an AND with a conjunct in scope, and without negations missing only if the predicate may be true of every value |
| `IntervalCompiler.WantedInOneEnvironment` | libgpopt/src/base/CConstraintInterval.cpp:670-705 | whether an interval has all, or only, wanted values in every environment is decided by one environment if unrecognised parts are all below even, or all below odd numbers of negations |
| `IntervalCompiler.FromAnd` | libgpopt/src/base/CConstraintInterval.cpp:670-705 | intersection of what converts; one conjunct in scope is enough for a result |
| `IntervalCompiler.FromOr` | libgpopt/src/base/CConstraintInterval.cpp:592-659 | union of all arguments; nothing if one does not convert, in particular if one is not recognised |
| `Connectives.ConjDisj` | libgpopt/src/operators/CPredicateUtils.cpp:675-736 | the loop: an absorbing constant is the result, otherwise the list without neutral constants, as a node only if it has two elements |
| `Connectives.FoldedTruth` | libgpopt/src/operators/CPredicateUtils.cpp:675-736 | for any kind of predicate the result has the three-valued truth of the whole list |
| `IntervalCompiler.ConnectPreds` | libgpopt/src/operators/CPredicateUtils.cpp:675-736 | for one-column predicates: that truth value; well-formed and in scope if the arguments are |
| `IntervalCompiler.RangeExpr` | libgpopt/src/base/CRange.cpp:403-494 | true of exactly the points of the range, constant true exactly for the unbounded one, never true of NULL otherwise |
| `IntervalCompiler.ConvertsToIn` | libgpopt/src/base/CConstraintInterval.cpp:822-836 | true exactly for two or more points |
| `IntervalCompiler.ConvertsToNotIn` | libgpopt/src/base/CConstraintInterval.cpp:849-879 | true exactly if the ranges are all there is except for some constants |
| `IntervalCompiler.PrintArray` | libgpopt/src/base/CConstraintInterval.cpp:894-940 | the IN or NOT IN list is true of exactly the values of the interval |
| `IntervalCompiler.PrintDisjunction` | libgpopt/src/base/CConstraintInterval.cpp:775-809 | the disjunction is true of exactly the values of the interval |
| `IntervalCompiler.Print` | libgpopt/src/base/CConstraintInterval.cpp:735-755 | true of exactly the values of the interval; with array constraints enabled an IN or NOT IN list is printed wherever the ranges allow one |
| `IntervalCompiler.PrintedCompilesBack` | libgpopt/src/base/CConstraintInterval.cpp:735-755 | compiling what was printed for a canonical interval gives the identical interval |
| `IntervalCompiler.PrintAndCompile` | libgpopt/src/base/CConstraintInterval.cpp:735-940 | the round trip itself: the conversion succeeds, keeps the values, and returns a canonical interval unchanged |
| `Constraints.ContradictionSound` | libgpopt/src/base/CConstraintConjunction.cpp:74-85 | a tree found contradictory is satisfied by no row |
| `Constraints.ContradictionExact` | libgpopt/src/base/CConstraintDisjunction.cpp:75-86 | if conjunctions are over intervals on different columns, the test is true exactly if no row satisfies the tree |
| `Constraints.RelaxedSound` | libgpopt/src/base/CConstraintConjunction.cpp:138-197 | a row of the tree is a row of the relaxed tree, for any set of columns |
| `Constraints.RelaxedExact` | libgpopt/src/base/CConstraintConjunction.cpp:138-197 | for disjunctions of conjunctions of non-empty intervals on different columns, the relaxed tree holds of a row exactly if some values outside the columns complete it to a row of the tree |
| `Constraints.SatDependsOnCols` | libgpopt/src/base/CConstraintConjunction.cpp:38-45 | only the values of the used columns decide |
| `ConstraintTrees.LookupLinear` | libgpopt/src/base/CConstraint.cpp:612-635 | the sublist of constraints on a column, in order |
| `ConstraintTrees.BuildColumnMap` | libgpopt/src/base/CColConstraintsHashMapper.cpp:20-48 | the map holds, for exactly the columns with single-column constraints, the sublist of them in order |
| `ConstraintTrees.MappersAgree` | libgpopt/src/base/CColConstraintsArrayMapper.cpp:11-16 | on every column that is looked up, the map returns the list of the linear scan |
| `ConstraintTrees.PrintConstraint` | libgpopt/src/base/CConstraintConjunction.cpp:224-241 | on one column the printed predicate is true of exactly the satisfying values |
| `ConstraintTrees.PrintList` | libgpopt/src/base/CConstraint.cpp:647-666 | the printed conjunction or disjunction of a list is true of exactly the satisfying values |
| `ConstraintTrees.ListInterval` | libgpopt/src/base/CConstraint.cpp:781-797 | printing and compiling a group of constraints on one column gives the canonical interval of exactly the values that satisfy all, or some, of them |
| `ConstraintTrees.Deduplicate` | libgpopt/src/base/CConstraint.cpp:726-818 | same rows, same columns, at most one single-column child for each column |
| `ConstraintTrees.Flatten` | libgpopt/src/base/CConstraint.cpp:679-713 | same rows, same columns; every result is a child or a grandchild through a child of the same kind, and none is of the node's kind if no such grandchild is |
| `ConstraintTrees.Construct` | libgpopt/src/base/CConstraintDisjunction.cpp:30-49 | the constructor keeps rows and columns, leaves one single-column child per column, and keeps trees flat |
| `ConstraintTrees.Combine` | libgpopt/src/base/CConstraint.cpp:294-333 | nothing for an empty list, otherwise a constraint with the rows of the list |
| `ConstraintProjection.ProjectColumn` | libgpopt/src/base/CConstraintInterval.cpp:984-994 | the projection on a column has exactly the rows of the relaxed tree; nothing only if these are all rows |
| `ConstraintProjection.ProjectConjunction` | libgpopt/src/base/CConstraintConjunction.cpp:138-163 | the same for a conjunction, where unbounded parts are skipped |
| `ConstraintProjection.ProjectDisjunction` | libgpopt/src/base/CConstraintDisjunction.cpp:137-174 | the same for a disjunction, which is unbounded if a part lacks the column; nothing exactly if all do |
| `ConstraintProjection.ProjectColumns` | libgpopt/src/base/CConstraintDisjunction.cpp:185-215 | the same for a set of columns, for intervals, conjunctions and disjunctions; nothing exactly if no column is shared and the tree is no disjunction (or the set is empty) |
| `ConstraintProjection.UnboundedOnAny` | libgpopt/src/base/CConstraintInterval.cpp:1270-1286 | an unbounded interval on a column of the set, nothing for the empty set |
| `ConstraintProjection.ProjectionSound` | libgpopt/src/base/CConstraintConjunction.cpp:174-197 | a row of the tree satisfies its projection |
| `ConstraintProjection.Remap` | libgpopt/src/base/CConstraint.cpp:863-887 | a row satisfies the copy exactly if its value in the column, put into all columns, satisfies the original |
| `ConstraintProjection.ToInterval` | libgpopt/src/base/CConstraintInterval.cpp:326-353 | canonical interval of exactly the satisfying values |
| `ConstraintContainment.MemoConstraint.constructor` | libgpopt/src/base/CConstraint.cpp:49-53 | a new constraint remembers nothing |
| `ConstraintContainment.MemoConstraint.Contains` | libgpopt/src/base/CConstraint.cpp:898-958 | whatever was asked before, the answer is the computed one; it is remembered, and remembered answers stay; a missing or unbounded argument is contained exactly in an unbounded receiver |
| `ConstraintContainment.MissingAsUnbounded` | libgpopt/src/base/CConstraint.cpp:898-910 | a missing argument gets the answer of an unbounded one |
| `ConstraintContainment.ColumnContained` | libgpopt/src/base/CConstraint.cpp:929-948 | the test for one column decides inclusion of the two projections |
| `ConstraintContainment.ContainsSound` | libgpopt/src/base/CConstraint.cpp:898-958 | if the rows of the receiver are all combinations of what its columns admit, yes means that every row of the other satisfies it |
| `ConstraintContainment.SoundIffProduct` | libgpopt/src/base/CConstraint.cpp:898-958 | yes is right for every argument if and only if the receiver is such a product |
| `ConstraintContainment.SingleColumnProduct` | libgpopt/src/base/CConstraint.cpp:929-948 | a constraint on a single column, disjunctions included, is a product |
| `ConstraintContainment.ConjunctionProduct` | libgpopt/src/base/CConstraint.cpp:929-948 | a conjunction of single-column constraints is a product |
| `ConstraintContainment.ScatteredAnswersYes` | libgpopt/src/base/CConstraint.cpp:898-958 | a disjunction in which every column is missing from some part says yes to everything that is not unbounded, and is sound exactly if it holds on every row |
| `ConstraintContainment.CompleteIffExtends` | libgpopt/src/base/CConstraint.cpp:898-958 | no is right for every receiver if and only if the argument is not unbounded and each value its columns admit occurs in one of its rows |
| `ConstraintContainment.ContainsExact` | libgpopt/src/base/CConstraint.cpp:898-958 | between a product and a satisfiable, not unbounded product the answer is inclusion of rows |
| `ConstraintContainment.DisjunctionAnswersWrongly` | libgpopt/src/base/CConstraint.cpp:898-958 | the instance (a = 0 OR b = 0): it answers yes to a constraint with a row that does not satisfy it |
| `ArrayExpansion.ExpandArray` | libgpopt/src/base/CConstraint.cpp:80-178 | exact for every operator and both quantifiers over non-NULL constants; when there is no constraint |
| `ArrayExpansion.ExpansionEqualsSortedSet` | libgpopt/src/base/CConstraint.cpp:209-220 | where the sorted-set conversion is in scope, both conversions give the same list of ranges |
| `PropConstraint.Property.constructor` | libgpopt/src/base/CPropConstraint.cpp:63-88 | each column is filed under the first class that holds it, and no other column is filed |
| `PropConstraint.Property.InferFromEquivalents` | libgpopt/src/base/CPropConstraint.cpp:114-198 | on rows that respect the classes of both scopes the inferred predicate is true exactly if both constraints, relaxed to the equivalent columns, hold; so it is true of every row of the constraints; none is inferred only if there is no own constraint or class, the column has no equivalents, or the constraints do not restrict them |
| `CteInfo.Info.IncrementConsumers` | libgpopt/src/base/CCTEInfo.cpp:451-487 | adds one to exactly one counter |
| `CteInfo.Info.CountConsumers` | libgpopt/src/base/CCTEInfo.cpp:404-422 | the sum over the main query and the used expressions |
| `CteInfo.Info.FindConsumersInParent` | libgpopt/src/base/CCTEInfo.cpp:611-634 | pushes exactly the not yet found consumers and takes exactly them off the set |
| `CteInfo.Info.MarkUnused` | libgpopt/src/base/CCTEInfo.cpp:645-683 | terminates; an expression stays used exactly if it was and is reachable from the main query through registered expressions |
| `CteInfo.WalkStaysInside` | libgpopt/src/base/CCTEInfo.cpp:661-669 | a set with the main query's consumers that is closed under consumption holds the end of every walk |
| `CteInfo.UsedIffConsumed` | libgpopt/src/base/CCTEInfo.cpp:404-422 | after marking from all used, used is the same as a positive number of consumers |
| `CteRequirements.CteMap.AddUnresolved` | libgpopt/src/base/CCTEMap.cpp:136-165 | adds exactly the entries that are not cancelled and not there |
| `CteRequirements.CteMap.Combine` | libgpopt/src/base/CCTEMap.cpp:270-282 | all entries of both maps except a producer and a consumer that meet |
| `CteRequirements.CteMap.Satisfies` | libgpopt/src/base/CCTEMap.cpp:293-326 | true exactly if every required entry is there with its kind and every consumer that is there was asked for |
| `CteRequirements.CteMap.AdditionalProducerIds` | libgpopt/src/base/CCTEMap.cpp:337-357 | exactly the unmentioned producers, each once |
| `CteRequirements.CteReq.Insert` | libgpopt/src/base/CCTEReq.cpp:166-181 | adds the entry and keeps the array of required ids in step |
| `CteRequirements.CteReq.AllOptional` | libgpopt/src/base/CCTEReq.cpp:440-457 | the same entries, none required |
| `CteRequirements.CteReq.Unresolved` | libgpopt/src/base/CCTEReq.cpp:329-353 | an entry stays required exactly if it was and is not found |
| `CteRequirements.CteReq.CopyForSequence` | libgpopt/src/base/CCTEReq.cpp:374-415 | the first loop keeps the ids and adjusts each entry to what was found |
| `CteRequirements.CteReq.RequireConsumers` | libgpopt/src/base/CCTEReq.cpp:417-426 | the second loop adds a required consumer for exactly the given producers |
| `CteRequirements.CteReq.UnresolvedSequence` | libgpopt/src/base/CCTEReq.cpp:365-429 | found consumers become optional, and every found producer makes its consumer required |
| `CteRequirements.SequenceCancelsProducer` | libgpopt/src/base/CCTEReq.cpp:394-425 | a right side that meets the open requirement consumes each producer of the left, and combining cancels it |
| `CteRequirements.SequenceCompletes` | libgpopt/src/base/CCTEReq.cpp:365-429 | then the combined map meets the original requirement, and has no consumer that was not asked for |
| `CteRequirements.SequenceExact` | libgpopt/src/base/CCTEReq.cpp:365-429 | what a sequence leaves open is met by exactly those right sides that consume every producer of the left and complete the requirement |
| `CteRequirements.EmptyRequirement` | libgpopt/src/base/CCTEMap.cpp:293-326 | a map meets the empty requirement exactly if it holds no consumer |
| `CteRequirements.UnresolvedExact` | libgpopt/src/base/CCTEReq.cpp:329-353 | meeting what is left open makes the combined map meet the requirement, without consumers that were not asked for; without cancellation it is necessary too |
| `PartIndexMap.PartIndexMap.constructor` | libgpopt/src/base/CPartIndexMap.cpp:199-205 | empty map, both counters right |
| `PartIndexMap.Resolve` | libgpopt/src/base/CPartIndexMap.cpp:521-560 | a propagator and a consumer, in either order, count down by one, to a resolver at zero and to the sentinel from zero; every other pair keeps the first entry |
| `PartIndexMap.PartIndexMap.Insert` | libgpopt/src/base/CPartIndexMap.cpp:232-275 | a new entry is counted, an existing one keeps its state; a counter that was right stays right |
| `PartIndexMap.PartIndexMap.ContainsUnresolved` | libgpopt/src/base/CPartIndexMap.cpp:594-597 | true exactly if some entry is a consumer |
| `PartIndexMap.PartIndexMap.SetExpected` | libgpopt/src/base/CPartIndexMap.cpp:407-412 | the consumer count stays right; the count of consumers that expect nothing stays right exactly if no consumer's expectation changes from or to zero |
| `PartIndexMap.PartIndexMap.AddUnresolved` | libgpopt/src/base/CPartIndexMap.cpp:454-509 | adds the missing entries of the first map, resolved against the second; a counter that was right stays right |
| `PartIndexMap.PartIndexMap.Combine` | libgpopt/src/base/CPartIndexMap.cpp:571-583 | entry by entry the resolution of both maps; counters are right |
| `PartIndexMap.PartIndexMap.PartitionSelector` | libgpopt/src/base/CPartIndexMap.cpp:862-905 | only the entry of the scan changes; counters are right |
| `PartIndexMap.PartIndexMap.Satisfies` | libgpopt/src/base/CPartIndexMap.cpp:751-804 | no exactly if something is required and some required id is derived as a consumer that is not at the sentinel and expects nothing or another number than required |
| `PartIndexMap.PropagatorsCountDown` | libgpopt/src/base/CPartIndexMap.cpp:521-560 | over any run, k propagators in either position leave n - k expected, and the n-th resolves |
| `PartIndexMap.CountDownSatisfies` | libgpopt/src/base/CPartIndexMap.cpp:788-804 | after k of n propagators a requirement is satisfied exactly if k = n or it expects n - k |
| `PartIndexMap.OthersUnchanged` | libgpopt/src/base/CPartIndexMap.cpp:571-583 | entries that no step of a run mentions come through unchanged |
| `PartIndexMap.SelectorThenPropagators` | libgpopt/src/base/CPartIndexMap.cpp:882-898 | the entry that a selector leaves with k more expected is resolved by the k-th propagator and not before |
| `PartIndexMap.UnexpectedPropagator` | libgpopt/src/base/CPartIndexMap.cpp:532-558 | a consumer that expects nothing satisfies no requirement, and every one after meeting a propagator, without being resolved |
| `PartIndexMap.ExtraPropagator` | libgpopt/src/base/CPartIndexMap.cpp:521-560 | after the n-th propagator one more undoes the resolution if it comes as first argument, and only then; every requirement is satisfied in both cases |
| `PartPredicates.ConjunctsMean` | libgpopt/src/operators/CPredicateUtils.cpp:290-310 | the collected conjuncts have, together, the truth value of the predicate |
| `PartPredicates.ConjunctsFlat` | libgpopt/src/operators/CPredicateUtils.cpp:290-310 | no conjunct is itself a conjunction, and anything else is its own only conjunct |
| `PartPredicates.ConjunctsConcat` | libgpopt/src/operators/CPredicateUtils.cpp:290-310 | the conjuncts of an AND are those of its arguments, one after the other |
| `PartPredicates.OwnerExactly` | libgpopt/src/base/CPartitionPropagationSpec.cpp:459-499 | a conjunct that uses exactly one partitioning key goes to the first level with that key, any other is residual |
| `PartPredicates.PredicatesOnKey` | libgpopt/src/base/CPartitionPropagationSpec.cpp:459-499 | exactly the conjuncts whose only partitioning key is that of the level, in order, unless an earlier level has the key; exactly the positions taken so far are marked |
| `PartPredicates.Conjunction` | libgpopt/src/operators/CPredicateUtils.cpp:675-736 | same three-valued truth as the conjunction of the whole list |
| `PartPredicates.ResidualFilter` | libgpopt/src/base/CPartitionPropagationSpec.cpp:415-447 | true, or false, exactly if all, or some, conjuncts that use no key or several are; missing exactly if these are all constant true |
| `PartPredicates.ShareConserves` | libgpopt/src/base/CPartitionPropagationSpec.cpp:303-379 | every conjunct is in the share of one place as often as it occurs, and in no other |
| `PartPredicates.Split` | libgpopt/src/base/CPartitionPropagationSpec.cpp:303-379 | a level's filter and the expression of its equality filter mention no other partitioning key; the residual is decided by exactly the conjuncts with no key or several; all outputs together have the truth value of the predicate on every row |
| `PartPredicates.LevelOutputs` | libgpopt/src/base/CPartitionPropagationSpec.cpp:323-371 | a level has one of the two outputs exactly if it is the first with its key and some conjunct uses that key alone |
| `PartPredicates.LevelEquality` | libgpopt/src/base/CPartitionPropagationSpec.cpp:337-357 | an equality filter stands for the only conjunct on the key, which is an equality with the key on one side |
| `PartPredicates.LevelHasEquality` | libgpopt/src/base/CPartitionPropagationSpec.cpp:337-357 | and every such only conjunct becomes an equality filter |
| `PartPredicates.LevelTruth` | libgpopt/src/base/CPartitionPropagationSpec.cpp:359-371 | a filter is true, or false, exactly if all, or some, conjuncts on the key of its level are |
| `PartPredicates.LevelIsLocal` | libgpopt/src/base/CPartitionPropagationSpec.cpp:323-371 | the truth value of what is put on a level does not change with the keys of the other levels |
| `PartPredicates.SplitPreservesMeaning` | libgpopt/src/base/CPartitionPropagationSpec.cpp:303-379 | key = equality filter, level filters and residual together are equivalent to the predicate, also where it is unknown |
| `HashedDistribution.MatchSubset` | libgpopt/src/base/CDistributionSpecHashed.cpp:180-230 | the search loops decide whether every own key is, up to casts and equivalence, a key of the other, as spelled out by SubsetMeans and SubsetSatisfies |
| `HashedDistribution.SubsetMeans` | libgpopt/src/base/CDistributionSpecHashed.cpp:180-230 | if so, each own key without casts is a key of the other without casts or listed as its equivalent, and flags and sizes are compatible |
| `HashedDistribution.SubsetSatisfies` | libgpopt/src/base/CDistributionSpecHashed.cpp:137-230 | conversely, that is enough to satisfy the requirement, whatever the chains |
| `HashedDistribution.UncoveredKeyFails` | libgpopt/src/base/CDistributionSpecHashed.cpp:137-230 | without equivalent specifications one own key that is neither a required key nor listed with one decides for no |
| `HashedDistribution.IncompatibleFails` | libgpopt/src/base/CDistributionSpecHashed.cpp:137-230 | so do incompatible flags and more own keys than required ones |
| `HashedDistribution.MatchKeys` | libgpopt/src/base/CDistributionSpecHashed.cpp:391-426 | the loop decides whether the keys agree one by one, up to the other's equivalents |
| `HashedDistribution.KeysMean` | libgpopt/src/base/CDistributionSpecHashed.cpp:391-426 | if so, each own key is the other's key in its position or listed as its equivalent, and the flags agree |
| `HashedDistribution.KeysSatisfy` | libgpopt/src/base/CDistributionSpecHashed.cpp:391-426 | conversely, that is enough to satisfy the requirement |
| `HashedDistribution.MatchesExactly` | libgpopt/src/base/CDistributionSpecHashed.cpp:438-462 | the mutual recursion, which ends because the chains get shorter, finds a match exactly among the listed pairs and directions |
| `HashedDistribution.ComparedDirections` | libgpopt/src/base/CDistributionSpecHashed.cpp:438-462 | every pair is compared forwards, except the own specification with an equivalent of the other; equivalents of the other are also compared backwards |
| `HashedDistribution.EquivalentsHelp` | libgpopt/src/base/CDistributionSpecHashed.cpp:137-167 | a match or satisfaction through an equivalent specification of either side is one |
| `HashedDistribution.SatisfiesExactly` | libgpopt/src/base/CDistributionSpecHashed.cpp:137-167 | a hashed requirement is satisfied exactly if some specification of the own chain matches it or hashes on a subset |
| `HashedDistribution.SatisfiesUnhashed` | libgpopt/src/base/CDistributionSpecHashed.cpp:149-159 | of the other requirements exactly "any" and "non-singleton" are satisfied |
| `HashedDistribution.EquivalentOfOtherMissed` | libgpopt/src/base/CDistributionSpecHashed.cpp:438-462 | a pair outside those directions that agrees key by key and is not found |
| `HashedDistribution.SatisfiesColocates` | libgpopt/src/base/CDistributionSpecHashed.cpp:137-230 | if the derived chain describes the placement, some key list of the required chain has agreeing rows on one segment |

## Left out

- Comparisons of a column with a NULL constant: the original builds a range around a NULL end point; `IS DISTINCT FROM NULL` is modelled.
- Predicates.SelectsOneSided: one direction for each polarity; a dropped conjunct makes the other one fail, exactly as `Predicates.OpaqueAddsIff`, `Predicates.OpaqueBelowNotIff` and `Predicates.OneEnvironmentDecides` say.
- ArrayExpansion.ExpandArray: not for arrays with a NULL constant, for which the original builds a range around a NULL end point.
- ConstraintTrees.Deduplicate: not the fallback for a group that fails to convert, which a type conflict would need; in the model every printed constraint converts.
- IntervalCompiler.SortedDistinct: the library sort is represented by insertion.
- Intersection and union over an arbitrary comparator: they are stated over real constants only.
- Casts around columns and constants in comparisons, except for the casts that distribution matching strips.
- Constraint negation over compound constraints, and constraints derived from general multi-column expressions with their equivalence classes.
- Caching of printed predicates, remapping of columns by a map, and the column-to-children map as an object (its contents are the lookup modelled here).
- Plan properties attached to CTE producers beyond being passed along, and the preprocessing and statistics of producers.
- Part constraints, part keys and partial scans of partition index entries.
- 32-bit wrap-around of ids and counters.
- How equivalent specifications and equivalent key expressions of hashed distributions are computed; NULL co-location and duplicate sensitivity take part in matching but have no meaning in terms of rows here.
- Metadata lookups, comparison of constants by evaluation, constrainable types (all columns are taken to be constrainable), cost models, statistics, serialization, memory management and printing.
