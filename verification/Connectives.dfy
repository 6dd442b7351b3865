/**
  Conjunctions and disjunctions put together from a list, with constants folded
  (CPredicateUtils::PexprConjDisj), for any kind of predicate.
 */
module Connectives {
  import opened Predicates

  /** The three-valued conjunction or disjunction of the elements' truth values. */
  function TruthOf<E(!new)>(conj: bool, es: seq<E>, value: E -> Truth): Truth {
    if es == [] then Truly(conj)
    else
      var first, rest := value(es[0]), TruthOf(conj, es[1..], value);
      if conj then And3(first, rest) else Or3(first, rest)
  }

  /** One absorbing element decides; otherwise the result is neutral only if every element is. */
  lemma {:induction false} TruthOfMeaning<E(!new)>(conj: bool, es: seq<E>, value: E -> Truth)
    ensures TruthOf(conj, es, value) == Truly(!conj) <==> exists e :: e in es && value(e) == Truly(!conj)
    ensures TruthOf(conj, es, value) == Truly(conj) <==> forall e :: e in es ==> value(e) == Truly(conj)
  {
    if es != [] {
      TruthOfMeaning(conj, es[1..], value);
      assert es[0] in es;
      assert forall e :: e in es <==> e == es[0] || e in es[1..];
    }
  }

  /** The list without an element, in order. */
  function Without<E(==, !new)>(es: seq<E>, x: E): (r: seq<E>)
    ensures forall e :: e in r <==> e in es && e != x
    ensures x !in es ==> r == es
  {
    if es == [] then []
    else
      var init, last := es[..|es| - 1], es[|es| - 1];
      assert es == init + [last];
      Without(init, x) + if last == x then [] else [last]
  }

  /** Taking an element out of a list is taking it out of its parts. */
  lemma {:induction false} WithoutConcat<E(!new)>(a: seq<E>, b: seq<E>, x: E)
    ensures Without(a + b, x) == Without(a, x) + Without(b, x)
  {
    if b == [] {
      assert a + b == a;
    } else {
      var init, last := b[..|b| - 1], b[|b| - 1];
      var tail := if last == x then [] else [last];
      WithoutConcat(a, init, x);
      assert (a + b)[..|a + b| - 1] == a + init && (a + b)[|a + b| - 1] == last;
      assert Without(a + b, x) == (Without(a, x) + Without(init, x)) + tail;
      assert Without(b, x) == Without(init, x) + tail;
    }
  }

  /** An absorbing constant is the result; otherwise neutral ones are dropped, and a single element needs no node. */
  function Folded<E(==, !new)>(es: seq<E>, neutral: E, absorbing: E, join: seq<E> -> E): E {
    if absorbing in es then absorbing
    else
      var kept := Without(es, neutral);
      if kept == [] then neutral else if |kept| == 1 then kept[0] else join(kept)
  }

  method ConjDisj<E(==, !new)>(es: seq<E>, neutral: E, absorbing: E, join: seq<E> -> E) returns (e: E)
    requires neutral != absorbing
    ensures e == Folded(es, neutral, absorbing, join)
    ensures absorbing in es ==> e == absorbing
    ensures absorbing !in es && (forall x :: x in es ==> x == neutral) ==> e == neutral
    ensures absorbing !in es && |Without(es, neutral)| == 1 ==> e in es && e != neutral
    ensures absorbing !in es && |Without(es, neutral)| > 1 ==> e == join(Without(es, neutral))
  {
    var kept: seq<E> := [];
    for k := 0 to |es|
      invariant absorbing !in es[..k] && kept == Without(es[..k], neutral)
    {
      assert es[..k + 1][..k] == es[..k];
      if es[k] == neutral {
        continue;
      }
      if es[k] == absorbing {
        return absorbing;
      }
      kept := kept + [es[k]];
    }
    assert es[..|es|] == es;
    assert |kept| > 0 ==> kept[0] in kept;
    if |kept| == 0 {
      e := neutral;
    } else if |kept| == 1 {
      e := kept[0];
    } else {
      e := join(kept);
    }
  }

  /** Folding keeps the truth value. */
  lemma FoldedTruth<E(!new)>(conj: bool, es: seq<E>, neutral: E, absorbing: E, join: seq<E> -> E, value: E -> Truth)
    requires value(neutral) == Truly(conj) && value(absorbing) == Truly(!conj)
    requires value(join(Without(es, neutral))) == TruthOf(conj, Without(es, neutral), value)
    ensures value(Folded(es, neutral, absorbing, join)) == TruthOf(conj, es, value)
  {
    var kept := Without(es, neutral);
    TruthOfMeaning(conj, es, value);
    TruthOfMeaning(conj, kept, value);
    if |kept| == 1 {
      assert kept[0] in kept && forall e :: e in kept ==> e == kept[0];
    }
  }
}
