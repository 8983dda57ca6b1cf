/**
  * The state of the file-backed fact repository as a value: the ordered list
  * of facts and the cached id counter, the form the facts take in the JSON
  * file, and what each repository operation does to that state. The class in
  * module Data is proved to follow these functions; the lemmas here state what
  * the operations promise.
  */
module FactStore {
  import opened Wrappers
  import opened Models

  /** `_facts` and `_nextId` of the repository. */
  datatype Store = Store(facts: seq<Fact>, nextId: int)

  /** A new state together with what the operation returned to its caller. */
  datatype Outcome<T> = Outcome(store: Store, result: T)

  /**
    * What the JSON file holds, as the deserialiser sees it: no file at the
    * path, text that the deserialiser rejects, or a document whose `facts`
    * list is present or null.
    */
  datatype FileContents = Missing | Malformed | Document(stored: Option<seq<Fact>>)

  /** Loading fails only when the deserialiser throws. */
  datatype LoadError = MalformedJson

  // ----- Predicates on the state -----

  /** Some record carries `id`. */
  predicate HasId(facts: seq<Fact>, id: int) {
    exists i :: 0 <= i < |facts| && facts[i].id == id
  }

  /** The class invariant: the counter is above every stored id. */
  predicate CounterAbove(s: Store) {
    forall i :: 0 <= i < |s.facts| ==> s.facts[i].id < s.nextId
  }

  /** No two records share an id. */
  predicate DistinctIds(facts: seq<Fact>) {
    forall i, j :: 0 <= i < j < |facts| ==> facts[i].id != facts[j].id
  }

  // ----- Searches (Enumerable.Max and List.FirstOrDefault) -----

  /** The largest id in a non-empty list. */
  function MaxId(facts: seq<Fact>): (m: int)
    requires facts != []
    ensures forall i :: 0 <= i < |facts| ==> facts[i].id <= m
    ensures exists i :: 0 <= i < |facts| && facts[i].id == m
  {
    if |facts| == 1 then facts[0].id
    else
      var rest := MaxId(facts[1..]);
      assert forall i :: 1 <= i < |facts| ==> facts[i] == facts[1..][i - 1];
      if facts[0].id >= rest then facts[0].id else rest
  }

  /** The counter computed at load time: one more than the largest id, or 1 for an empty list. */
  function NextIdFor(facts: seq<Fact>): (n: int)
    ensures forall i :: 0 <= i < |facts| ==> facts[i].id < n
    ensures facts == [] ==> n == 1
    ensures facts != [] ==> HasId(facts, n - 1)
  {
    if facts == [] then 1 else MaxId(facts) + 1
  }

  /** The position of the first record whose id is `id`, or None when no record has it. */
  function FirstIndex(facts: seq<Fact>, id: int): (r: Option<nat>)
    ensures r.None? ==> forall j :: 0 <= j < |facts| ==> facts[j].id != id
    ensures r.Some? ==> r.value < |facts| && facts[r.value].id == id
    ensures r.Some? ==> forall j :: 0 <= j < r.value ==> facts[j].id != id
  {
    if facts == [] then None
    else if facts[0].id == id then Some(0)
    else
      match FirstIndex(facts[1..], id)
      case None => None
      case Some(k) => Some(k + 1)
  }

  /** GetFactByIdAsync: the first record with the given id, or None. */
  function Get(facts: seq<Fact>, id: int): (r: Option<Fact>)
    ensures r.None? <==> !HasId(facts, id)
    ensures r.Some? ==> r.value.id == id
    ensures r.Some? ==> exists i :: 0 <= i < |facts| && facts[i] == r.value &&
                                    forall j :: 0 <= j < i ==> facts[j].id != id
  {
    match FirstIndex(facts, id)
    case None => None
    case Some(i) => Some(facts[i])
  }

  // ----- Loading and saving -----

  /** LoadFacts: the list read from the file and the counter computed from it. */
  function LoadFacts(contents: FileContents): (r: Result<Store, LoadError>)
    ensures r.Failure? <==> contents.Malformed?
    ensures r.Success? ==> CounterAbove(r.value)
    ensures r.Success? && contents.Document? && contents.stored.Some? ==>
              r.value.facts == contents.stored.value
    ensures r.Success? && contents.Document? && contents.stored.Some? ==>
              r.value.nextId == NextIdFor(contents.stored.value)
    ensures r.Success? && !(contents.Document? && contents.stored.Some?) ==>
              r.value == Store([], 1)
  {
    match contents
    case Missing => Success(Store([], 1))
    case Malformed => Failure(MalformedJson)
    case Document(None) => Success(Store([], 1))
    case Document(Some(facts)) => Success(Store(facts, NextIdFor(facts)))
  }

  /** SaveFactsAsync: the file afterwards holds the whole list. */
  function Saved(s: Store): FileContents {
    Document(Some(s.facts))
  }

  // ----- The mutating operations -----

  /** CreateFactAsync: stamp the counter and the time on the record, then append it. */
  function Create(s: Store, fact: Fact, now: Timestamp): Outcome<Fact> {
    var stored := fact.(id := s.nextId, createdAt := now);
    Outcome(Store(s.facts + [stored], s.nextId + 1), stored)
  }

  /** UpdateFactAsync: overwrite text, category and flag of the first match, if any. */
  function Update(s: Store, id: int, fact: Fact): Outcome<Option<Fact>> {
    match FirstIndex(s.facts, id)
    case None => Outcome(s, None)
    case Some(i) =>
      var updated := s.facts[i].(text := fact.text, category := fact.category,
                                 isVerified := fact.isVerified);
      Outcome(Store(s.facts[i := updated], s.nextId), Some(updated))
  }

  /** DeleteFactAsync: remove the first match, if any, and say whether there was one. */
  function Delete(s: Store, id: int): Outcome<bool> {
    match FirstIndex(s.facts, id)
    case None => Outcome(s, false)
    case Some(i) => Outcome(Store(s.facts[..i] + s.facts[i + 1..], s.nextId), true)
  }

  // ----- Properties of Create -----

  /**
    * Create gives the record the counter as id and the given time, keeps the
    * caller's text, category and flag, appends it at the end, and moves the
    * counter up by exactly one.
    */
  lemma CreateContract(s: Store, fact: Fact, now: Timestamp)
    ensures var o := Create(s, fact, now);
      && o.result.id == s.nextId && o.result.createdAt == now
      && o.result.text == fact.text && o.result.category == fact.category
      && o.result.isVerified == fact.isVerified
      && |o.store.facts| == |s.facts| + 1
      && o.store.facts[..|s.facts|] == s.facts && o.store.facts[|s.facts|] == o.result
      && o.store.nextId == s.nextId + 1
  {
    var o := Create(s, fact, now);
    assert o.store.facts[..|s.facts|] == s.facts;
  }

  /** Create keeps the counter above every id and keeps the ids distinct. */
  lemma CreatePreservesInvariants(s: Store, fact: Fact, now: Timestamp)
    requires CounterAbove(s)
    ensures CounterAbove(Create(s, fact, now).store)
    ensures DistinctIds(s.facts) ==> DistinctIds(Create(s, fact, now).store.facts)
  {
  }

  /** Reading back the id Create handed out yields the record Create returned. */
  lemma CreateThenGet(s: Store, fact: Fact, now: Timestamp)
    requires CounterAbove(s)
    ensures var o := Create(s, fact, now); Get(o.store.facts, o.result.id) == Some(o.result)
  {
    var o := Create(s, fact, now);
    var n := |s.facts|;
    assert o.store.facts[n] == o.result;
    assert forall j :: 0 <= j < n ==> o.store.facts[j] == s.facts[j];
    match FirstIndex(o.store.facts, o.result.id)
    case None =>
      assert false;
    case Some(i) =>
      assert i == n;
  }

  // ----- Properties of Update -----

  /**
    * Update returns None exactly when no record has the id, and then changes
    * nothing. Otherwise it rewrites the first match only: that record keeps its
    * id and creation time and takes the caller's text, category and flag; the
    * other records, their order, the length and the counter stay as they were.
    */
  lemma UpdateContract(s: Store, id: int, fact: Fact)
    ensures var o := Update(s, id, fact);
      && (o.result.None? <==> !HasId(s.facts, id))
      && (o.result.None? ==> o.store == s)
      && (o.result.Some? ==>
            exists i :: 0 <= i < |s.facts| && s.facts[i].id == id
              && (forall j :: 0 <= j < i ==> s.facts[j].id != id)
              && o.result.value == Fact(s.facts[i].id, fact.text, fact.category,
                                        s.facts[i].createdAt, fact.isVerified)
              && o.store.facts == s.facts[i := o.result.value]
              && o.store.nextId == s.nextId)
  {
  }

  /** Update leaves every id where it was, so both invariants carry over. */
  lemma UpdatePreservesInvariants(s: Store, id: int, fact: Fact)
    requires CounterAbove(s)
    ensures var t := Update(s, id, fact).store;
      && |t.facts| == |s.facts|
      && (forall j :: 0 <= j < |t.facts| ==> t.facts[j].id == s.facts[j].id)
      && CounterAbove(t)
      && (DistinctIds(s.facts) ==> DistinctIds(t.facts))
  {
  }

  /** After a successful Update, reading the id back yields the updated record. */
  lemma UpdateThenGet(s: Store, id: int, fact: Fact)
    requires Update(s, id, fact).result.Some?
    ensures var o := Update(s, id, fact); Get(o.store.facts, id) == o.result
  {
    var o := Update(s, id, fact);
    var i := FirstIndex(s.facts, id).value;
    assert forall j :: 0 <= j < |s.facts| ==> o.store.facts[j].id == s.facts[j].id;
    match FirstIndex(o.store.facts, id)
    case None =>
      assert false;
    case Some(k) =>
      assert k == i;
  }

  // ----- Properties of Delete -----

  /**
    * Delete returns false exactly when no record has the id, and then changes
    * nothing. Otherwise it removes the first match only, keeping the others in
    * order, so the list is one shorter; the counter stays as it was.
    */
  lemma DeleteContract(s: Store, id: int)
    ensures var o := Delete(s, id);
      && (o.result <==> HasId(s.facts, id))
      && (!o.result ==> o.store == s)
      && (o.result ==>
            exists i :: 0 <= i < |s.facts| && s.facts[i].id == id
              && (forall j :: 0 <= j < i ==> s.facts[j].id != id)
              && o.store.facts == s.facts[..i] + s.facts[i + 1..])
      && (o.result ==> |o.store.facts| == |s.facts| - 1)
      && o.store.nextId == s.nextId
  {
  }

  /** The records left by Delete are records that were there, so both invariants carry over. */
  lemma DeletePreservesInvariants(s: Store, id: int)
    requires CounterAbove(s)
    ensures CounterAbove(Delete(s, id).store)
    ensures DistinctIds(s.facts) ==> DistinctIds(Delete(s, id).store.facts)
  {
    match FirstIndex(s.facts, id)
    case None =>
    case Some(i) =>
      var t := Delete(s, id).store.facts;
      assert forall j :: 0 <= j < |t| ==> t[j] == s.facts[if j < i then j else j + 1];
  }

  /** When ids are distinct, a deleted id can no longer be found. */
  lemma DeleteThenGet(s: Store, id: int)
    requires DistinctIds(s.facts)
    ensures Delete(s, id).result ==> Get(Delete(s, id).store.facts, id).None?
  {
    match FirstIndex(s.facts, id)
    case None =>
    case Some(i) =>
      var t := Delete(s, id).store.facts;
      forall j | 0 <= j < |t|
        ensures t[j].id != id
      {
        var k := if j < i then j else j + 1;
        assert t[j] == s.facts[k] && k != i;
      }
  }

  // ----- Saving and loading again -----

  /**
    * Loading what was saved gives back the same list, with the same record
    * for every id. The recomputed counter is 1 for an empty list; otherwise it
    * is never above the cached one, and equals it exactly when the record with
    * the id just below the counter is still there.
    */
  lemma ReloadRoundTrip(s: Store, id: int)
    requires CounterAbove(s)
    ensures LoadFacts(Saved(s)).Success?
    ensures LoadFacts(Saved(s)).value.facts == s.facts
    ensures Get(LoadFacts(Saved(s)).value.facts, id) == Get(s.facts, id)
    ensures s.facts != [] ==> LoadFacts(Saved(s)).value.nextId <= s.nextId
    ensures s.facts != [] ==>
              (HasId(s.facts, s.nextId - 1) <==> LoadFacts(Saved(s)).value.nextId == s.nextId)
  {
    var n := NextIdFor(s.facts);
    assert LoadFacts(Saved(s)) == Success(Store(s.facts, n));
    if s.facts != [] {
      var k :| 0 <= k < |s.facts| && s.facts[k].id == n - 1;
      assert n - 1 < s.nextId;
    }
    if HasId(s.facts, s.nextId - 1) {
      var k :| 0 <= k < |s.facts| && s.facts[k].id == s.nextId - 1;
      assert s.nextId - 1 < n;
    }
  }
}
