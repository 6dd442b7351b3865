/**
  Partition propagation (CPartIndexMap): for each partitioned scan a plan derives whether it
  consumes, propagates or has resolved the selection of partitions, and how many propagators
  a consumer still expects.
 */
module PartIndexMap {
  /** Stands for a consumer that expected no propagator and met one. */
  const ULONG_MAX := 0xFFFF_FFFF

  datatype Manipulator = Propagator | Consumer | Resolver

  datatype Info = Info(kind: Manipulator, expected: nat) {
    /** Only consumers expect propagators. */
    predicate Valid() {
      kind != Consumer ==> expected == 0
    }
  }

  type Entries = map<nat, Info>

  ghost function Consumers(entries: Entries): set<nat> {
    set id | id in entries && entries[id].kind == Consumer
  }

  ghost function ZeroConsumers(entries: Entries): set<nat> {
    set id | id in entries && entries[id] == Info(Consumer, 0)
  }

  /** A propagator that meets a consumer counts it down; otherwise the first entry stays. */
  function Resolve(fst: Info, snd: Info): (r: Info)
    requires fst.Valid() && snd.Valid()
    ensures r.Valid()
    ensures {fst.kind, snd.kind} != {Propagator, Consumer} ==> r == fst
    ensures {fst.kind, snd.kind} == {Propagator, Consumer} && fst.expected + snd.expected == 0 ==> r == Info(Consumer, ULONG_MAX)
    ensures {fst.kind, snd.kind} == {Propagator, Consumer} && fst.expected + snd.expected > 0 ==>
              r.expected == fst.expected + snd.expected - 1 && (r.kind == Resolver <==> r.expected == 0) && r.kind != Propagator
  {
    if fst.kind == Propagator && snd.kind == Consumer then CountDown(snd.expected)
    else if fst.kind == Consumer && snd.kind == Propagator then CountDown(fst.expected)
    else fst
  }

  function CountDown(expected: nat): Info {
    if 0 < expected then Info(if expected == 1 then Resolver else Consumer, expected - 1)
    else Info(Consumer, ULONG_MAX)
  }

  ghost predicate AllValid(entries: Entries) {
    forall id :: id in entries ==> entries[id].Valid()
  }

  /** The combination of two maps, entry by entry. */
  ghost function Combined(a: Entries, b: Entries): Entries
    requires AllValid(a) && AllValid(b)
  {
    map id | id in a.Keys + b.Keys ::
      if id in a then ResolvedEntry(a, b, id) else b[id]
  }

  lemma CountInserted(entries: Entries, id: nat, info: Info)
    requires id !in entries
    ensures |Consumers(entries[id := info])| == |Consumers(entries)| + if info.kind == Consumer then 1 else 0
  {
    var before, after := Consumers(entries), Consumers(entries[id := info]);
    if info.kind == Consumer {
      assert after == before + {id};
    } else {
      assert after == before;
    }
  }

  lemma CountZeroInserted(entries: Entries, id: nat, info: Info)
    requires id !in entries
    ensures |ZeroConsumers(entries[id := info])| == |ZeroConsumers(entries)| + if info == Info(Consumer, 0) then 1 else 0
  {
    var before, after := ZeroConsumers(entries), ZeroConsumers(entries[id := info]);
    if info == Info(Consumer, 0) {
      assert after == before + {id};
    } else {
      assert after == before;
    }
  }

  /** Changing what an entry expects keeps the number of consumers, and that of consumers that expect nothing up to this entry. */
  lemma CountAfterSet(before: Entries, after: Entries, id: nat, expected: nat)
    requires id in before && after == before[id := Info(before[id].kind, expected)]
    ensures |Consumers(after)| == |Consumers(before)|
    ensures |ZeroConsumers(after)| - (if after[id] == Info(Consumer, 0) then 1 else 0)
            == |ZeroConsumers(before)| - if before[id] == Info(Consumer, 0) then 1 else 0
  {
    var rest := before - {id};
    assert before == rest[id := before[id]] && after == rest[id := after[id]];
    CountInserted(rest, id, before[id]);
    CountInserted(rest, id, after[id]);
    CountZeroInserted(rest, id, before[id]);
    CountZeroInserted(rest, id, after[id]);
  }

  /** The entry of `a` for the id, resolved against that of `b` if there is one. */
  ghost function ResolvedEntry(a: Entries, b: Entries, id: nat): Info
    requires AllValid(a) && AllValid(b) && id in a
  {
    if id in b then Resolve(a[id], b[id]) else a[id]
  }

  /** `m` is `before` with the entries of `a` outside `todo` added, resolved against `b`. */
  ghost predicate Added(m: Entries, before: Entries, a: Entries, b: Entries, todo: set<nat>)
    requires AllValid(a) && AllValid(b)
  {
    && m.Keys == before.Keys + (a.Keys - todo)
    && (forall id :: id in before ==> m[id] == before[id])
    && (forall id :: id in a && id !in todo && id !in before ==> m[id] == ResolvedEntry(a, b, id))
  }

  lemma AddedBoth(m: Entries, half: Entries, a: Entries, b: Entries)
    requires AllValid(a) && AllValid(b)
    requires Added(half, map[], a, b, {}) && Added(m, half, b, a, {})
    ensures m == Combined(a, b)
  {
    assert m.Keys == a.Keys + b.Keys;
  }

  lemma AddedOne(m: Entries, before: Entries, a: Entries, b: Entries, todo: set<nat>, id: nat)
    requires AllValid(a) && AllValid(b) && Added(m, before, a, b, todo) && id in todo && todo <= a.Keys
    ensures id in m ==> Added(m, before, a, b, todo - {id})
    ensures id !in m ==> Added(m[id := ResolvedEntry(a, b, id)], before, a, b, todo - {id})
  {
  }

  predicate SatisfiesEntry(reqd: Info, drvd: Info) {
    drvd.kind == Resolver || drvd.kind == Propagator ||
    drvd.expected == ULONG_MAX || (drvd.expected != 0 && drvd.expected == reqd.expected)
  }

  class PartIndexMap {
    var entries: Entries
    var unresolved: nat
    var unresolvedZero: nat

    ghost predicate Valid()
      reads this
    {
      AllValid(entries) && unresolved == |Consumers(entries)|
    }

    ghost predicate ZeroCounted()
      reads this
    {
      unresolvedZero == |ZeroConsumers(entries)|
    }

    constructor ()
      ensures Valid() && ZeroCounted() && entries == map[]
    {
      entries := map[];
      unresolved, unresolvedZero := 0, 0;
    }

    /** A new entry is counted if it is a consumer; an existing one keeps its state. */
    method Insert(id: nat, info: Info)
      requires Valid() && info.Valid()
      modifies this
      ensures Valid() && (ZeroCounted() <==> old(ZeroCounted()))
      ensures entries == if id in old(entries) then old(entries) else old(entries)[id := info]
    {
      if id !in entries {
        CountInserted(entries, id, info);
        CountZeroInserted(entries, id, info);
        entries := entries[id := info];
        if info.kind == Consumer {
          unresolved := unresolved + 1;
          if info.expected == 0 {
            unresolvedZero := unresolvedZero + 1;
          }
        }
      }
    }

    method ContainsUnresolved() returns (b: bool)
      requires Valid()
      ensures b <==> exists id :: id in entries && entries[id].kind == Consumer
    {
      b := unresolved != 0;
      assert forall id :: id in Consumers(entries) <==> id in entries && entries[id].kind == Consumer;
      if b {
        ghost var id :| id in Consumers(entries);
        assert id in entries && entries[id].kind == Consumer;
      }
    }

    /**
      Changes an entry but neither counter. The count of consumers stays right; the count of
      consumers that expect nothing stays right exactly if the change does not make the expectation
      of a consumer zero or nonzero. The entries stay valid exactly if only a consumer expects anything.
     */
    method SetExpected(id: nat, expected: nat)
      requires Valid() && id in entries
      modifies this`entries
      ensures entries == old(entries)[id := Info(old(entries)[id].kind, expected)]
      ensures unresolved == |Consumers(entries)|
      ensures Valid() <==> old(entries)[id].kind == Consumer || expected == 0
      ensures old(ZeroCounted()) ==>
                (ZeroCounted() <==> old(entries)[id].kind != Consumer || (old(entries)[id].expected == 0 <==> expected == 0))
    {
      ghost var before := entries;
      entries := entries[id := entries[id].(expected := expected)];
      CountAfterSet(before, entries, id, expected);
      assert AllValid(entries) <==> entries[id].Valid();
    }

    /** Adds the entries of `fst`, resolved against `snd`, that are not there yet. */
    method AddUnresolved(fst: PartIndexMap, snd: PartIndexMap)
      requires Valid() && fst.Valid() && snd.Valid() && this != fst && this != snd
      modifies this
      ensures Valid() && (ZeroCounted() <==> old(ZeroCounted()))
      ensures Added(entries, old(entries), fst.entries, snd.entries, {})
    {
      ghost var a, b, before := fst.entries, snd.entries, entries;
      var todo := fst.entries.Keys;
      while todo != {}
        invariant todo <= a.Keys && Valid() && (ZeroCounted() <==> old(ZeroCounted()))
        invariant fst.entries == a && snd.entries == b && AllValid(a) && AllValid(b)
        invariant Added(entries, before, a, b, todo)
        decreases |todo|
      {
        var id :| id in todo;
        AddedOne(entries, before, a, b, todo, id);
        todo := todo - {id};
        if id in entries {
          continue;
        }
        var info := fst.entries[id];
        if id in snd.entries {
          info := Resolve(info, snd.entries[id]);
        }
        Insert(id, info);
      }
    }

    static method Combine(fst: PartIndexMap, snd: PartIndexMap) returns (result: PartIndexMap)
      requires fst.Valid() && snd.Valid()
      ensures fresh(result) && result.Valid() && result.ZeroCounted()
      ensures result.entries == Combined(fst.entries, snd.entries)
      ensures result.entries.Keys == fst.entries.Keys + snd.entries.Keys
      ensures forall id :: id in fst.entries && id in snd.entries ==> result.entries[id] == Resolve(fst.entries[id], snd.entries[id])
      ensures forall id :: id in fst.entries && id !in snd.entries ==> result.entries[id] == fst.entries[id]
      ensures forall id :: id !in fst.entries && id in snd.entries ==> result.entries[id] == snd.entries[id]
    {
      result := new PartIndexMap();
      result.AddUnresolved(fst, snd);
      ghost var half := result.entries;
      result.AddUnresolved(snd, fst);
      AddedBoth(result.entries, half, fst.entries, snd.entries);
    }

    /** The map above a partition selector for the scan, with the given number of selectors expected above it. */
    method PartitionSelector(scanId: nat, expectedFromReq: nat) returns (result: PartIndexMap)
      requires Valid()
      ensures fresh(result) && result.Valid() && result.ZeroCounted()
      ensures result.entries == map id | id in entries ::
                if id != scanId then entries[id]
                else if expectedFromReq == 0 then Info(Resolver, 0) else Info(Consumer, expectedFromReq)
    {
      result := new PartIndexMap();
      var todo := entries.Keys;
      while todo != {}
        invariant todo <= entries.Keys && fresh(result) && result.Valid() && result.ZeroCounted()
        invariant entries == old(entries)
        invariant result.entries == map id | id in entries.Keys - todo :: if id == scanId then SelectedInfo(expectedFromReq) else entries[id]
        decreases |todo|
      {
        var id :| id in todo;
        var info := entries[id];
        if id == scanId {
          info := SelectedInfo(expectedFromReq);
        }
        result.Insert(id, info);
        todo := todo - {id};
      }
    }

    /** Every entry that is required, and derived at all, is derived well enough. */
    method Satisfies(reqd: PartIndexMap?) returns (ok: bool)
      requires reqd != null ==> reqd.Valid()
      ensures ok <==> reqd == null || Consumers(reqd.entries) == {} ||
                      forall id :: id in reqd.entries && id in entries ==> SatisfiesEntry(reqd.entries[id], entries[id])
      ensures reqd != null && (exists id :: id in reqd.entries && reqd.entries[id].kind == Consumer) ==>
                (!ok <==> exists id :: id in reqd.entries && id in entries && entries[id].kind == Consumer
                                       && entries[id].expected != ULONG_MAX
                                       && (entries[id].expected == 0 || entries[id].expected != reqd.entries[id].expected))
      ensures reqd == null || (forall id :: id in reqd.entries ==> reqd.entries[id].kind != Consumer) ==> ok
    {
      if reqd != null {
        assert forall id :: id in Consumers(reqd.entries) <==> id in reqd.entries && reqd.entries[id].kind == Consumer;
      }

      if reqd == null || reqd.unresolved == 0 {
        return true;
      }
      var todo := reqd.entries.Keys;
      while todo != {}
        invariant todo <= reqd.entries.Keys
        invariant forall id :: id in reqd.entries && id !in todo && id in entries ==> SatisfiesEntry(reqd.entries[id], entries[id])
        decreases |todo|
      {
        var id :| id in todo;
        if id in entries && !SatisfiesEntry(reqd.entries[id], entries[id]) {
          return false;
        }
        todo := todo - {id};
      }
      return true;
    }
  }

  function SelectedInfo(expectedFromReq: nat): Info {
    if expectedFromReq == 0 then Info(Resolver, 0) else Info(Consumer, expectedFromReq)
  }

  // ----- whole runs -----

  /** One combination step of a run: a map that is given as the first or as the second argument. */
  datatype Step = Step(entries: Entries, first: bool)

  ghost predicate ValidSteps(steps: seq<Step>) {
    forall k :: 0 <= k < |steps| ==> AllValid(steps[k].entries)
  }

  ghost function CombineStep(m: Entries, step: Step): (r: Entries)
    requires AllValid(m) && AllValid(step.entries)
    ensures AllValid(r)
  {
    if step.first then Combined(step.entries, m) else Combined(m, step.entries)
  }

  /** The map after combining it with all the given ones, one after the other. */
  ghost function RunOf(m: Entries, steps: seq<Step>): (r: Entries)
    requires AllValid(m) && ValidSteps(steps)
    ensures AllValid(r)
  {
    if steps == [] then m else CombineStep(RunOf(m, steps[..|steps| - 1]), steps[|steps| - 1])
  }

  ghost predicate AllPropagate(steps: seq<Step>, id: nat) {
    forall k :: 0 <= k < |steps| ==> id in steps[k].entries && steps[k].entries[id] == Info(Propagator, 0)
  }

  /**
    Counting: a consumer that expects n propagators and is combined with k of them, each in either
    argument position, expects n - k more, and is resolved by the n-th.
   */
  lemma {:induction false} PropagatorsCountDown(m: Entries, id: nat, n: nat, steps: seq<Step>)
    requires AllValid(m) && ValidSteps(steps) && id in m && m[id] == Info(Consumer, n)
    requires AllPropagate(steps, id) && 0 < n && |steps| <= n
    ensures id in RunOf(m, steps)
    ensures RunOf(m, steps)[id] == if |steps| < n then Info(Consumer, n - |steps|) else Info(Resolver, 0)
  {
    if steps != [] {
      var init := steps[..|steps| - 1];
      assert forall k :: 0 <= k < |init| ==> init[k] == steps[k];
      PropagatorsCountDown(m, id, n, init);
    }
  }

  /** Entries that no step mentions come through unchanged. */
  lemma {:induction false} OthersUnchanged(m: Entries, id: nat, steps: seq<Step>)
    requires AllValid(m) && ValidSteps(steps)
    requires forall k :: 0 <= k < |steps| ==> id !in steps[k].entries
    ensures id in RunOf(m, steps) <==> id in m
    ensures id in m ==> RunOf(m, steps)[id] == m[id]
  {
    if steps != [] {
      var init := steps[..|steps| - 1];
      assert forall k :: 0 <= k < |init| ==> init[k] == steps[k];
      OthersUnchanged(m, id, init);
    }
  }

  /** After k of n propagators the entry satisfies a requirement exactly if all have come or the rest is expected above. */
  lemma CountDownSatisfies(m: Entries, id: nat, n: nat, steps: seq<Step>, reqd: Info)
    requires AllValid(m) && ValidSteps(steps) && id in m && m[id] == Info(Consumer, n)
    requires AllPropagate(steps, id) && 0 < n < ULONG_MAX && |steps| <= n
    ensures id in RunOf(m, steps)
    ensures SatisfiesEntry(reqd, RunOf(m, steps)[id]) <==> |steps| == n || reqd.expected == n - |steps|
  {
    PropagatorsCountDown(m, id, n, steps);
  }

  /** A selector with k selectors expected above it leaves an entry that exactly k propagators resolve. */
  lemma SelectorThenPropagators(m: Entries, id: nat, k: nat, steps: seq<Step>)
    requires AllValid(m) && ValidSteps(steps) && id in m && m[id] == SelectedInfo(k)
    requires AllPropagate(steps, id) && |steps| <= k
    ensures id in RunOf(m, steps)
    ensures RunOf(m, steps)[id].kind == Resolver <==> |steps| == k
    ensures |steps| < k ==> RunOf(m, steps)[id] == Info(Consumer, k - |steps|)
  {
    if k == 0 {
      assert RunOf(m, steps) == m;
    } else {
      PropagatorsCountDown(m, id, k, steps);
    }
  }

  /** A consumer that expects nothing is not resolved by a propagator, in either position, but then satisfies everything. */
  lemma UnexpectedPropagator(m: Entries, id: nat, step: Step, reqd: Info)
    requires AllValid(m) && AllValid(step.entries) && id in m && m[id] == Info(Consumer, 0)
    requires AllPropagate([step], id)
    ensures id in CombineStep(m, step) && CombineStep(m, step)[id].kind == Consumer
    ensures !SatisfiesEntry(reqd, m[id]) && SatisfiesEntry(reqd, CombineStep(m, step)[id])
  {
    assert [step][0] == step;
  }

  /** One propagator too many is not harmless: the argument position decides what becomes of the resolver. */
  lemma ExtraPropagator(m: Entries, id: nat, n: nat, steps: seq<Step>)
    requires AllValid(m) && ValidSteps(steps) && id in m && m[id] == Info(Consumer, n)
    requires AllPropagate(steps, id) && 0 < n && |steps| == n + 1
    ensures id in RunOf(m, steps)
    ensures RunOf(m, steps)[id] == if steps[n].first then Info(Propagator, 0) else Info(Resolver, 0)
    ensures forall reqd :: SatisfiesEntry(reqd, RunOf(m, steps)[id])
  {
    var init := steps[..n];
    assert forall k :: 0 <= k < |init| ==> init[k] == steps[k];
    PropagatorsCountDown(m, id, n, init);
  }
}
