/**
  * Sequences of repository calls on one instance, and the ids its Create
  * calls hand out. The lemmas show that ids are issued in order from the
  * counter, one apart, and never repeat an id that was stored earlier, even
  * after that record has been deleted.
  */
module History {
  import opened Models
  import opened FactStore

  /** A mutating call on the repository. Reads change nothing and are not listed. */
  datatype Op =
    | CreateOp(fact: Fact, now: Timestamp)
    | UpdateOp(id: int, fact: Fact)
    | DeleteOp(id: int)

  function Step(s: Store, op: Op): Store {
    match op
    case CreateOp(fact, now) => Create(s, fact, now).store
    case UpdateOp(id, fact) => Update(s, id, fact).store
    case DeleteOp(id) => Delete(s, id).store
  }

  /** The state after the calls `ops`, made in order from `s`. */
  function Run(s: Store, ops: seq<Op>): Store
    decreases |ops|
  {
    if ops == [] then s else Run(Step(s, ops[0]), ops[1..])
  }

  /** The ids handed out by the Create calls among `ops`, in the order they were issued. */
  function Issued(s: Store, ops: seq<Op>): seq<int>
    decreases |ops|
  {
    if ops == [] then []
    else (if ops[0].CreateOp? then [s.nextId] else []) + Issued(Step(s, ops[0]), ops[1..])
  }

  /** One call keeps the counter above every stored id and keeps ids distinct. */
  lemma StepPreservesInvariants(s: Store, op: Op)
    requires CounterAbove(s)
    ensures CounterAbove(Step(s, op))
    ensures DistinctIds(s.facts) ==> DistinctIds(Step(s, op).facts)
  {
    match op
    case CreateOp(fact, now) => CreatePreservesInvariants(s, fact, now);
    case UpdateOp(id, fact) => UpdatePreservesInvariants(s, id, fact);
    case DeleteOp(id) => DeletePreservesInvariants(s, id);
  }

  /** Any sequence of calls keeps the counter above every stored id and keeps ids distinct. */
  lemma {:induction false} RunPreservesInvariants(s: Store, ops: seq<Op>)
    requires CounterAbove(s)
    ensures CounterAbove(Run(s, ops))
    ensures DistinctIds(s.facts) ==> DistinctIds(Run(s, ops).facts)
    decreases |ops|
  {
    if ops != [] {
      StepPreservesInvariants(s, ops[0]);
      RunPreservesInvariants(Step(s, ops[0]), ops[1..]);
    }
  }

  /**
    * Create calls issue the counter's values in order: the k-th id issued is
    * the starting counter plus k, and the counter ends one past the last id
    * issued. Only Create moves the counter, and it never moves down.
    */
  lemma {:induction false} IssuedFromCounter(s: Store, ops: seq<Op>)
    ensures forall k :: 0 <= k < |Issued(s, ops)| ==> Issued(s, ops)[k] == s.nextId + k
    ensures Run(s, ops).nextId == s.nextId + |Issued(s, ops)|
    decreases |ops|
  {
    if ops != [] {
      var t := Step(s, ops[0]);
      IssuedFromCounter(t, ops[1..]);
      if ops[0].CreateOp? {
        assert t.nextId == s.nextId + 1;
      } else {
        assert t.nextId == s.nextId;
      }
    }
  }

  /** No id is issued twice, and none is below the counter at the start. */
  lemma IssuedDistinctAndFresh(s: Store, ops: seq<Op>)
    ensures forall j, k :: 0 <= j < k < |Issued(s, ops)| ==> Issued(s, ops)[j] < Issued(s, ops)[k]
    ensures forall k :: 0 <= k < |Issued(s, ops)| ==> Issued(s, ops)[k] >= s.nextId
    ensures Run(s, ops).nextId >= s.nextId
  {
    IssuedFromCounter(s, ops);
  }

  /** An id that is stored now is never handed out by a later Create. */
  lemma StoredIdNeverIssued(s: Store, ops: seq<Op>, id: int)
    requires CounterAbove(s)
    requires HasId(s.facts, id)
    ensures id !in Issued(s, ops)
  {
    IssuedFromCounter(s, ops);
  }

  /** An id removed by Delete is never handed out again by the same repository. */
  lemma DeletedIdNeverReissued(s: Store, id: int, ops: seq<Op>)
    requires CounterAbove(s)
    requires Delete(s, id).result
    ensures id !in Issued(Delete(s, id).store, ops)
  {
    DeleteContract(s, id);
    IssuedFromCounter(Delete(s, id).store, ops);
  }
}
