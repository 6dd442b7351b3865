/**
  The producer/consumer protocol of common table expressions between the children of a plan
  operator: requirements (CCTEReq) passed down, derived maps (CCTEMap) passed up and combined.
 */
module CteRequirements {
  import opened Options

  datatype Kind = Producer | Consumer

  /** Derived plan properties of a producer, kept but not looked into here. */
  type Plan = nat

  datatype Derived = Derived(kind: Kind, plan: Option<Plan>)

  datatype Required = Required(kind: Kind, required: bool, plan: Option<Plan>)

  type Entries = map<nat, Derived>

  type Requirements = map<nat, Required>

  // ----- what the operations compute -----

  /** A producer on one side and a consumer on the other cancel; everything else stays. */
  ghost function Combined(a: Entries, b: Entries): Entries {
    map id | id in a.Keys + b.Keys && !(id in a && id in b && a[id].kind != b[id].kind) ::
      if id in a then a[id] else b[id]
  }

  /** Required entries are there with the right kind, and no consumer is there that was not asked for. */
  ghost predicate Meets(m: Entries, req: Requirements) {
    && (forall id :: id in req && req[id].required ==> id in m && m[id].kind == req[id].kind)
    && (forall id :: id in m && m[id].kind == Consumer ==> id in req && req[id].kind == Consumer)
  }

  /** What is still required after the given map: found entries become optional. */
  ghost function UnresolvedAfter(req: Requirements, m: Entries): Requirements {
    map id | id in req :: req[id].(required := req[id].required && id !in m)
  }

  /** The same behind the producing side of a sequence: a found producer makes its consumer required. */
  ghost function UnresolvedAfterSequence(req: Requirements, m: Entries, plan: Plan): Requirements {
    map id | id in req.Keys + AdditionalProducers(m, req) ::
      if id in AdditionalProducers(m, req) then Required(Consumer, true, Some(plan))
      else SequenceEntry(req[id], id in m, plan)
  }

  function SequenceEntry(entry: Required, found: bool, plan: Plan): Required {
    if entry.required && found then entry.(required := false)
    else if !entry.required && entry.kind == Producer && found then Required(Consumer, true, Some(plan))
    else entry
  }

  /** Producers of the map that the requirement does not mention as producers. */
  ghost function AdditionalProducers(m: Entries, req: Requirements): set<nat> {
    set id | id in m && m[id].kind == Producer && !(id in req && req[id].kind == Producer)
  }

  /** Where both speak about an expression, they agree on producing or consuming. */
  ghost predicate Agree(m: Entries, req: Requirements) {
    forall id :: id in m && id in req ==> m[id].kind == req[id].kind
  }

  /** Of the required entries only consumers are found already. */
  ghost predicate FoundAreConsumers(m: Entries, req: Requirements) {
    forall id :: id in m && id in req && req[id].required ==> req[id].kind == Consumer
  }

  ghost predicate ConsumersAskedFor(m: Entries, req: Requirements) {
    forall id :: id in m && m[id].kind == Consumer ==> id in req && req[id].kind == Consumer
  }

  ghost predicate Distinct(ids: seq<nat>) {
    forall i, j :: 0 <= i < j < |ids| ==> ids[i] != ids[j]
  }

  // ----- the objects -----

  class CteMap {
    var entries: Entries

    constructor ()
      ensures entries == map[]
    {
      entries := map[];
    }

    method Insert(id: nat, kind: Kind, plan: Option<Plan>)
      requires id !in entries
      modifies this
      ensures entries == old(entries)[id := Derived(kind, plan)]
    {
      entries := entries[id := Derived(kind, plan)];
    }

    /** Adds the entries of `first` that `second` does not cancel and that are not there yet. */
    method AddUnresolved(first: CteMap, second: CteMap)
      requires this != first && this != second
      modifies this
      ensures forall id :: id in entries <==>
                id in old(entries) || (id in first.entries && (id in second.entries ==> first.entries[id].kind == second.entries[id].kind))
      ensures forall id :: id in entries ==> entries[id] == if id in old(entries) then old(entries)[id] else first.entries[id]
    {
      var todo := first.entries.Keys;
      while todo != {}
        invariant todo <= first.entries.Keys
        invariant first.entries == old(first.entries) && second.entries == old(second.entries)
        invariant forall id :: id in entries <==>
                    id in old(entries) || (id in first.entries && id !in todo
                                           && (id in second.entries ==> first.entries[id].kind == second.entries[id].kind))
        invariant forall id :: id in entries ==> entries[id] == if id in old(entries) then old(entries)[id] else first.entries[id]
        decreases |todo|
      {
        var id :| id in todo;
        todo := todo - {id};
        if id in entries {
          continue;
        }
        var entry := first.entries[id];
        if id !in second.entries || entry.kind == second.entries[id].kind {
          Insert(id, entry.kind, entry.plan);
        }
      }
    }

    static method Combine(first: CteMap, second: CteMap) returns (result: CteMap)
      ensures fresh(result) && result.entries == Combined(first.entries, second.entries)
      ensures forall id :: id in result.entries <==>
                (id in first.entries || id in second.entries) &&
                (id in first.entries && id in second.entries ==> first.entries[id].kind == second.entries[id].kind)
      ensures forall id :: id in result.entries ==>
                result.entries[id] == if id in first.entries then first.entries[id] else second.entries[id]
    {
      result := new CteMap();
      result.AddUnresolved(first, second);
      result.AddUnresolved(second, first);
      assert result.entries.Keys == Combined(first.entries, second.entries).Keys;
    }

    /** The ids of the additional producers, each once. */
    method AdditionalProducerIds(req: CteReq) returns (ids: seq<nat>)
      ensures Distinct(ids) && forall id :: id in ids <==> id in AdditionalProducers(entries, req.entries)
      ensures forall id :: id in ids <==>
                id in entries && entries[id].kind == Producer && !(id in req.entries && req.entries[id].kind == Producer)
    {
      ids := [];
      var todo := entries.Keys;
      while todo != {}
        invariant todo <= entries.Keys && Distinct(ids)
        invariant forall id :: id in ids <==> id in AdditionalProducers(entries, req.entries) && id !in todo
        decreases |todo|
      {
        var id :| id in todo;
        if entries[id].kind == Producer && !(id in req.entries && req.entries[id].kind == Producer) {
          ids := ids + [id];
        }
        todo := todo - {id};
      }
    }

    /** The two checking loops. */
    method Satisfies(req: CteReq) returns (ok: bool)
      requires req.Valid()
      ensures ok <==> Meets(entries, req.entries)
      ensures ok <==>
              && (forall id :: id in req.entries && req.entries[id].required ==> id in entries && entries[id].kind == req.entries[id].kind)
              && (forall id :: id in entries && entries[id].kind == Consumer ==> id in req.entries && req.entries[id].kind == Consumer)
    {
      for k := 0 to |req.required|
        invariant forall m :: 0 <= m < k ==>
                    req.required[m] in entries && entries[req.required[m]].kind == req.entries[req.required[m]].kind
      {
        var id := req.required[k];
        if id !in entries || entries[id].kind != req.entries[id].kind {
          assert id in req.entries && req.entries[id].required;
          return false;
        }
      }
      var todo := entries.Keys;
      while todo != {}
        invariant todo <= entries.Keys
        invariant forall id :: id in entries && id !in todo && entries[id].kind == Consumer ==>
                    id in req.entries && req.entries[id].kind == Consumer
        decreases |todo|
      {
        var id :| id in todo;
        if entries[id].kind == Consumer && !(id in req.entries && req.entries[id].kind == Consumer) {
          return false;
        }
        todo := todo - {id};
      }
      return true;
    }
  }

  class CteReq {
    var entries: Requirements
    var required: seq<nat>

    /** The array of required ids lists exactly the entries that are marked required. */
    ghost predicate Valid()
      reads this
    {
      forall id :: id in required <==> id in entries && entries[id].required
    }

    constructor ()
      ensures Valid() && entries == map[]
    {
      entries := map[];
      required := [];
    }

    method Insert(id: nat, entry: Required)
      requires Valid() && id !in entries
      modifies this
      ensures Valid() && entries == old(entries)[id := entry]
    {
      entries := entries[id := entry];
      if entry.required {
        required := required + [id];
      }
    }

    method AllOptional() returns (r: CteReq)
      requires Valid()
      ensures fresh(r) && r.Valid()
      ensures r.entries == map id | id in entries :: entries[id].(required := false)
    {
      r := new CteReq();
      var todo := entries.Keys;
      while todo != {}
        invariant todo <= entries.Keys && fresh(r) && r.Valid() && entries == old(entries)
        invariant r.entries == map id | id in entries.Keys - todo :: entries[id].(required := false)
        decreases |todo|
      {
        var id :| id in todo;
        r.Insert(id, entries[id].(required := false));
        todo := todo - {id};
      }
    }

    method Unresolved(m: CteMap) returns (r: CteReq)
      requires Valid()
      ensures fresh(r) && r.Valid() && r.entries == UnresolvedAfter(entries, m.entries)
      ensures r.entries == map id | id in entries ::
                Required(entries[id].kind, entries[id].required && id !in m.entries, entries[id].plan)
    {
      r := new CteReq();
      var todo := entries.Keys;
      while todo != {}
        invariant todo <= entries.Keys && fresh(r) && r.Valid()
        invariant entries == old(entries) && m.entries == old(m.entries)
        invariant r.entries == map id | id in entries.Keys - todo :: entries[id].(required := entries[id].required && id !in m.entries)
        decreases |todo|
      {
        var id :| id in todo;
        r.Insert(id, entries[id].(required := entries[id].required && id !in m.entries));
        todo := todo - {id};
      }
    }

    /** First loop behind a sequence: the entries of the requirement, adjusted to what was found. */
    method CopyForSequence(m: CteMap, plan: Plan) returns (r: CteReq)
      requires Valid()
      ensures fresh(r) && r.Valid()
      ensures r.entries == map id | id in entries :: SequenceEntry(entries[id], id in m.entries, plan)
    {
      r := new CteReq();
      var todo := entries.Keys;
      while todo != {}
        invariant todo <= entries.Keys && fresh(r) && r.Valid()
        invariant entries == old(entries) && m.entries == old(m.entries)
        invariant r.entries == map id | id in entries.Keys - todo :: SequenceEntry(entries[id], id in m.entries, plan)
        decreases |todo|
      {
        var id :| id in todo;
        r.Insert(id, SequenceEntry(entries[id], id in m.entries, plan));
        todo := todo - {id};
      }
    }

    /** Second loop: a required consumer for each of the given producers. */
    method RequireConsumers(ids: seq<nat>, plan: Plan)
      requires Valid() && Distinct(ids) && forall id :: id in ids ==> id !in entries
      modifies this
      ensures Valid()
      ensures forall id :: id in entries <==> id in old(entries) || id in ids
      ensures forall id :: id in entries ==> entries[id] == if id in ids then Required(Consumer, true, Some(plan)) else old(entries)[id]
    {
      for k := 0 to |ids|
        invariant Valid()
        invariant forall id :: id in entries <==> id in old(entries) || id in ids[..k]
        invariant forall id :: id in entries ==> entries[id] == if id in ids[..k] then Required(Consumer, true, Some(plan)) else old(entries)[id]
      {
        assert ids[..k + 1] == ids[..k] + [ids[k]];
        Insert(ids[k], Required(Consumer, true, Some(plan)));
      }
      assert ids[..|ids|] == ids;
    }

    /** Agreement, and that a required entry found already is a consumer, is what the original asserts while it walks the entries. */
    method UnresolvedSequence(m: CteMap, plan: Plan) returns (r: CteReq)
      requires Valid() && Agree(m.entries, entries) && FoundAreConsumers(m.entries, entries)
      ensures fresh(r) && r.Valid() && r.entries == UnresolvedAfterSequence(entries, m.entries, plan)
      ensures forall id :: id in r.entries <==> id in entries || (id in m.entries && m.entries[id].kind == Producer)
      ensures forall id :: id in m.entries && m.entries[id].kind == Producer ==> r.entries[id] == Required(Consumer, true, Some(plan))
      ensures forall id :: id in entries && !(id in m.entries && m.entries[id].kind == Producer) ==>
                r.entries[id] == Required(entries[id].kind, entries[id].required && id !in m.entries, entries[id].plan)
    {
      r := CopyForSequence(m, plan);
      var producers := m.AdditionalProducerIds(this);
      r.RequireConsumers(producers, plan);
      assert r.entries.Keys == UnresolvedAfterSequence(entries, m.entries, plan).Keys;
    }
  }

  // ----- the protocol -----

  /** Every producer found on the left is consumed on the right, so that combining cancels it. */
  lemma SequenceCancelsProducer(req: Requirements, left: Entries, right: Entries, plan: Plan, id: nat)
    requires Agree(left, req) && FoundAreConsumers(left, req)
    requires Meets(right, UnresolvedAfterSequence(req, left, plan))
    requires id in left && left[id].kind == Producer
    ensures id in right && right[id].kind == Consumer && id !in Combined(left, right)
  {
    var rest := UnresolvedAfterSequence(req, left, plan);
    assert id in rest && rest[id] == Required(Consumer, true, Some(plan));
  }

  /** Every producer of the left side has its consumer on the right. */
  ghost predicate ConsumesProducers(right: Entries, left: Entries) {
    forall id :: id in left && left[id].kind == Producer ==> id in right && right[id].kind == Consumer
  }

  /** A right side that meets what the sequence left open completes the left side to the whole requirement. */
  lemma SequenceCompletes(req: Requirements, left: Entries, right: Entries, plan: Plan)
    requires Agree(left, req) && FoundAreConsumers(left, req) && ConsumersAskedFor(left, req)
    requires Agree(right, UnresolvedAfterSequence(req, left, plan))
    requires Meets(right, UnresolvedAfterSequence(req, left, plan))
    ensures Meets(Combined(left, right), req) && ConsumersAskedFor(Combined(left, right), req)
  {
    var rest, all := UnresolvedAfterSequence(req, left, plan), Combined(left, right);
    forall id | id in req && req[id].required
      ensures id in all && all[id].kind == req[id].kind
    {
      assert id in rest;
    }
    forall id | id in all && all[id].kind == Consumer
      ensures id in req && req[id].kind == Consumer
    {
      if id !in left {
        assert id in rest && rest[id].kind == Consumer;
      }
    }
  }

  /**
    What a sequence leaves open is the weakest such requirement: the right side meets it exactly if
    it consumes every producer of the left side and completes the requirement.
   */
  lemma SequenceExact(req: Requirements, left: Entries, right: Entries, plan: Plan)
    requires Agree(left, req) && FoundAreConsumers(left, req) && ConsumersAskedFor(left, req)
    requires Agree(right, UnresolvedAfterSequence(req, left, plan))
    ensures Meets(right, UnresolvedAfterSequence(req, left, plan)) <==>
            ConsumesProducers(right, left) && Meets(Combined(left, right), req)
  {
    var rest, all := UnresolvedAfterSequence(req, left, plan), Combined(left, right);
    if Meets(right, rest) {
      SequenceCompletes(req, left, right, plan);
      forall id | id in left && left[id].kind == Producer
        ensures id in right && right[id].kind == Consumer
      {
        SequenceCancelsProducer(req, left, right, plan, id);
      }
    }
    if ConsumesProducers(right, left) && Meets(all, req) {
      forall id | id in rest && rest[id].required
        ensures id in right && right[id].kind == rest[id].kind
      {
        assert id in req && id !in left ==> id in all;
      }
      forall id | id in right && right[id].kind == Consumer
        ensures id in rest && rest[id].kind == Consumer
      {
        assert id !in left || left[id].kind == Consumer ==> id in all && all[id].kind == Consumer;
      }
    }
  }

  /** At the top of a plan nothing is required: then every consumer has met its producer. */
  lemma EmptyRequirement(m: Entries)
    ensures Meets(m, map[]) <==> forall id :: id in m ==> m[id].kind == Producer
  {
  }

  /**
    For an operator that is not a sequence, what is left open is exactly what the right side must
    meet: with no cancellation between the sides it is the weakest such requirement.
   */
  lemma UnresolvedExact(req: Requirements, left: Entries, right: Entries)
    requires Agree(left, req) && Agree(right, req) && ConsumersAskedFor(left, req)
    ensures Meets(right, UnresolvedAfter(req, left)) ==>
              Meets(Combined(left, right), req) && ConsumersAskedFor(Combined(left, right), req)
    ensures (forall id :: id in left && id in right ==> left[id].kind == right[id].kind) ==>
              (Meets(Combined(left, right), req) ==> Meets(right, UnresolvedAfter(req, left)))
  {
    var rest, all := UnresolvedAfter(req, left), Combined(left, right);
    if Meets(right, rest) {
      forall id | id in req && req[id].required
        ensures id in all && all[id].kind == req[id].kind
      {
        assert id in rest;
      }
      forall id | id in all && all[id].kind == Consumer
        ensures id in req && req[id].kind == Consumer
      {
        if id !in left {
          assert id in rest;
        }
      }
    }
    if Meets(all, req) && forall id :: id in left && id in right ==> left[id].kind == right[id].kind {
      forall id | id in rest && rest[id].required
        ensures id in right && right[id].kind == rest[id].kind
      {
        assert id in all;
      }
      forall id | id in right && right[id].kind == Consumer
        ensures id in rest && rest[id].kind == Consumer
      {
        assert id in all;
      }
    }
  }
}
