/**
  Common table expressions of a query (CCTEInfo): who consumes whom, how often, and which
  expressions are used at all. An id is a 32-bit number; the largest one stands for the main query.
 */
module CteInfo {

  const MAIN_QUERY := 0xFFFF_FFFF

  type Counters = map<nat, map<nat, nat>>

  /** There is a consumer of `id` inside `parent`. */
  predicate Consumes(consumers: Counters, parent: nat, id: nat) {
    parent in consumers && id in consumers[parent]
  }

  function CountIn(consumers: Counters, id: nat, parent: nat): nat {
    if Consumes(consumers, parent, id) then consumers[parent][id] else 0
  }

  ghost predicate PositiveCounters(consumers: Counters) {
    forall parent, id :: Consumes(consumers, parent, id) ==> consumers[parent][id] > 0
  }

  // ----- reachability -----

  /** A walk from the main query along consumer edges, through registered expressions only. */
  ghost predicate IsWalk(consumers: Counters, registered: set<nat>, walk: seq<nat>) {
    && |walk| > 0 && walk[0] == MAIN_QUERY
    && forall k :: 0 < k < |walk| ==> walk[k] in registered && Consumes(consumers, walk[k - 1], walk[k])
  }

  ghost predicate Reachable(consumers: Counters, registered: set<nat>, id: nat) {
    exists walk :: IsWalk(consumers, registered, walk) && |walk| > 1 && walk[|walk| - 1] == id
  }

  lemma ReachableFromMain(consumers: Counters, registered: set<nat>, id: nat)
    requires id in registered && Consumes(consumers, MAIN_QUERY, id)
    ensures Reachable(consumers, registered, id)
  {
    assert IsWalk(consumers, registered, [MAIN_QUERY, id]);
  }

  lemma ReachableStep(consumers: Counters, registered: set<nat>, parent: nat, id: nat)
    requires Reachable(consumers, registered, parent)
    requires id in registered && Consumes(consumers, parent, id)
    ensures Reachable(consumers, registered, id)
  {
    var walk :| IsWalk(consumers, registered, walk) && |walk| > 1 && walk[|walk| - 1] == parent;
    assert IsWalk(consumers, registered, walk + [id]);
  }

  /** A set that holds the main query's consumers and is closed under consumption holds every walk. */
  lemma {:induction false} WalkStaysInside(consumers: Counters, registered: set<nat>, inside: set<nat>, walk: seq<nat>)
    requires IsWalk(consumers, registered, walk) && |walk| > 1
    requires forall id :: id in registered && Consumes(consumers, MAIN_QUERY, id) ==> id in inside
    requires forall parent, id :: parent in inside && id in registered && Consumes(consumers, parent, id) ==> id in inside
    ensures walk[|walk| - 1] in inside
  {
    if |walk| > 2 {
      WalkStaysInside(consumers, registered, inside, walk[..|walk| - 1]);
      assert walk[..|walk| - 1][|walk| - 2] == walk[|walk| - 2];
    }
    assert Consumes(consumers, walk[|walk| - 2], walk[|walk| - 1]);
  }

  /** What a found expression consumes is found as well, unless the expression still waits on the stack. */
  ghost predicate Closed(consumers: Counters, registered: set<nat>, unused: set<nat>, stack: seq<nat>) {
    forall parent, id :: parent in registered - unused && parent !in stack && id in registered ==>
      Consumes(consumers, parent, id) ==> id !in unused
  }

  /** An expression is reachable through the main query or through another reachable expression. */
  lemma ReachableUnfold(consumers: Counters, registered: set<nat>, id: nat)
    ensures Reachable(consumers, registered, id) <==>
            id in registered &&
            (Consumes(consumers, MAIN_QUERY, id) ||
             exists parent :: Reachable(consumers, registered, parent) && Consumes(consumers, parent, id))
  {
    if Reachable(consumers, registered, id) {
      var walk :| IsWalk(consumers, registered, walk) && |walk| > 1 && walk[|walk| - 1] == id;
      var n := |walk| - 1;
      assert walk[n] in registered && Consumes(consumers, walk[n - 1], walk[n]);
      if n > 1 {
        assert IsWalk(consumers, registered, walk[..n]) && walk[..n][n - 1] == walk[n - 1];
        assert Reachable(consumers, registered, walk[n - 1]);
      }
    }
    if id in registered {
      if Consumes(consumers, MAIN_QUERY, id) {
        ReachableFromMain(consumers, registered, id);
      } else if parent :| Reachable(consumers, registered, parent) && Consumes(consumers, parent, id) {
        ReachableStep(consumers, registered, parent, id);
      }
    }
  }

  // ----- sums over the used expressions -----

  /** The consumers of `id` inside the given parents, all together. */
  ghost function TotalIn(consumers: Counters, id: nat, parents: set<nat>): nat {
    if parents == {} then 0
    else
      var p :| p in parents;
      CountIn(consumers, id, p) + TotalIn(consumers, id, parents - {p})
  }

  ghost function UsedAmong(used: map<nat, bool>, ids: set<nat>): set<nat> {
    set p | p in ids && p in used && used[p]
  }

  lemma {:induction false} TotalRemove(consumers: Counters, id: nat, parents: set<nat>, q: nat)
    requires q in parents
    ensures TotalIn(consumers, id, parents) == CountIn(consumers, id, q) + TotalIn(consumers, id, parents - {q})
    decreases |parents|
  {
    var p :| p in parents && TotalIn(consumers, id, parents) == CountIn(consumers, id, p) + TotalIn(consumers, id, parents - {p});
    if p != q {
      TotalRemove(consumers, id, parents - {p}, q);
      TotalRemove(consumers, id, parents - {q}, p);
      assert parents - {p} - {q} == parents - {q} - {p};
    }
  }

  lemma {:induction false} TotalPositive(consumers: Counters, id: nat, parents: set<nat>)
    requires PositiveCounters(consumers)
    ensures TotalIn(consumers, id, parents) > 0 <==> exists p :: p in parents && Consumes(consumers, p, id)
    decreases |parents|
  {
    if parents != {} {
      var p :| p in parents;
      TotalRemove(consumers, id, parents, p);
      TotalPositive(consumers, id, parents - {p});
    }
  }

  class Info {
    /** Registered expressions, and whether each is marked used. */
    var used: map<nat, bool>
    /** Parent to consumer to number of occurrences. */
    var consumers: Counters

    ghost predicate Valid()
      reads this
    {
      PositiveCounters(consumers) && MAIN_QUERY !in used
    }

    constructor ()
      ensures Valid() && used == map[] && consumers == map[]
    {
      used := map[];
      consumers := map[];
    }

    /** Registers an expression, marked as used. */
    method AddProducer(id: nat)
      requires Valid() && id < MAIN_QUERY && id !in used
      modifies this`used
      ensures Valid() && used == old(used)[id := true]
    {
      used := used[id := true];
    }

    /** One more consumer of `id` inside `parent`. */
    method IncrementConsumers(id: nat, parent: nat)
      requires Valid()
      modifies this`consumers
      ensures Valid()
      ensures forall i, p :: CountIn(consumers, i, p) ==
                             CountIn(old(consumers), i, p) + if i == id && p == parent then 1 else 0
    {
      if parent !in consumers {
        consumers := consumers[parent := map[]];
      }
      var inside: map<nat, nat> := consumers[parent];
      if id !in inside {
        inside := inside[id := 1];
      } else {
        inside := inside[id := inside[id] + 1];
      }
      consumers := consumers[parent := inside];
    }

    /** All consumers of `id` in the main query and in the used expressions. */
    method CountConsumers(id: nat) returns (n: nat)
      requires Valid()
      ensures n == CountIn(consumers, id, MAIN_QUERY) + TotalIn(consumers, id, UsedAmong(used, used.Keys))
    {
      n := CountIn(consumers, id, MAIN_QUERY);
      var todo := used.Keys;
      while todo != {}
        invariant todo <= used.Keys
        invariant n + TotalIn(consumers, id, UsedAmong(used, todo)) ==
                  CountIn(consumers, id, MAIN_QUERY) + TotalIn(consumers, id, UsedAmong(used, used.Keys))
        decreases |todo|
      {
        var p :| p in todo;
        if used[p] {
          TotalRemove(consumers, id, UsedAmong(used, todo), p);
          n := n + CountIn(consumers, id, p);
          assert UsedAmong(used, todo) - {p} == UsedAmong(used, todo - {p});
        } else {
          assert UsedAmong(used, todo) == UsedAmong(used, todo - {p});
        }
        todo := todo - {p};
      }
    }

    /** Pushes the consumers inside `parent` that are not yet found, and takes them off the set. */
    method FindConsumersInParent(parent: nat, unused: set<nat>, stack: seq<nat>) returns (unused': set<nat>, stack': seq<nat>)
      ensures unused' == unused - (set id | id in unused && Consumes(consumers, parent, id))
      ensures stack <= stack'
      ensures forall id :: id in stack'[|stack|..] <==> id in unused && Consumes(consumers, parent, id)
    {
      unused', stack' := unused, stack;
      if parent !in consumers {
        assert stack'[|stack|..] == [];
        return;
      }
      var todo := consumers[parent].Keys;
      while todo != {}
        invariant todo <= consumers[parent].Keys
        invariant unused' == unused - (set id | id in unused && id in consumers[parent].Keys - todo)
        invariant stack <= stack'
        invariant forall id :: id in stack'[|stack|..] <==> id in unused && id in consumers[parent].Keys - todo
        decreases |todo|
      {
        var id :| id in todo;
        if id in unused' {
          assert (stack' + [id])[|stack|..] == stack'[|stack|..] + [id];
          stack' := stack' + [id];
          unused' := unused' - {id};
        }
        todo := todo - {id};
      }
    }

    /** Unmarks every expression that the main query cannot reach. */
    method MarkUnused()
      requires Valid()
      modifies this`used
      ensures Valid() && used.Keys == old(used).Keys
      ensures forall id :: id in used ==>
                (used[id] <==> old(used)[id] && Reachable(consumers, used.Keys, id))
    {
      var registered := used.Keys;
      var unused, stack := FindConsumersInParent(MAIN_QUERY, registered, []);
      assert stack[0..] == stack;
      forall id | id in registered && id !in unused
        ensures Reachable(consumers, registered, id)
      {
        ReachableFromMain(consumers, registered, id);
      }
      while stack != []
        invariant used == old(used) && unused <= registered
        invariant forall id :: id in stack ==> id in registered && id !in unused
        invariant forall id :: id in registered - unused ==> Reachable(consumers, registered, id)
        invariant forall id :: id in registered && Consumes(consumers, MAIN_QUERY, id) ==> id !in unused
        invariant Closed(consumers, registered, unused, stack)
        decreases unused, |stack|
      {
        var parent := stack[|stack| - 1];
        var rest := stack[..|stack| - 1];
        assert stack == rest + [parent];
        ghost var before := unused;
        unused, stack := FindConsumersInParent(parent, unused, rest);
        assert stack == rest + stack[|rest|..];
        assert |stack| > |rest| ==> stack[|rest|..][0] in before && stack[|rest|..][0] !in unused;
        forall id | id in before && id !in unused
          ensures Reachable(consumers, registered, id)
        {
          ReachableStep(consumers, registered, parent, id);
        }
      }
      forall id | id in registered && Reachable(consumers, registered, id)
        ensures id !in unused
      {
        var walk :| IsWalk(consumers, registered, walk) && |walk| > 1 && walk[|walk| - 1] == id;
        WalkStaysInside(consumers, registered, registered - unused, walk);
      }
      used := map id | id in used :: used[id] && id !in unused;
    }
  }

  /** After marking, an expression is used exactly when it still has consumers. */
  lemma UsedIffConsumed(consumers: Counters, used: map<nat, bool>, id: nat)
    requires PositiveCounters(consumers) && id in used
    requires forall p :: p in used ==> (used[p] <==> Reachable(consumers, used.Keys, p))
    ensures used[id] <==>
            CountIn(consumers, id, MAIN_QUERY) + TotalIn(consumers, id, UsedAmong(used, used.Keys)) > 0
  {
    ReachableUnfold(consumers, used.Keys, id);
    TotalPositive(consumers, id, UsedAmong(used, used.Keys));
    forall p | Reachable(consumers, used.Keys, p)
      ensures p in used && used[p]
    {
      ReachableUnfold(consumers, used.Keys, p);
    }
  }
}
