/**
  * Concrete runs of the repository model: the fixture of the repository's
  * own tests (two facts with ids 1 and 2) and a restart after deleting the
  * newest fact.
  */
module Scenarios {
  import opened Wrappers
  import opened Models
  import opened FactStore

  /** The two facts the tests write to a temporary file before each test. */
  function Fixture(): seq<Fact> {
    [Fact(1, "Test fact 1", "Test", 100, true), Fact(2, "Test fact 2", "Test", 100, false)]
  }

  /** Loading the fixture gives both facts and a counter of 3; Create then hands out id 3. */
  lemma FixtureCreate(fact: Fact, now: Timestamp)
    ensures LoadFacts(Document(Some(Fixture()))) == Success(Store(Fixture(), 3))
    ensures var o := Create(Store(Fixture(), 3), fact, now);
      o.result.id == 3 && |o.store.facts| == 3 && o.result.text == fact.text
  {
    assert MaxId(Fixture()) == 2 by {
      assert Fixture()[1..] == [Fixture()[1]];
    }
  }

  /** Get of the unknown id 999 finds nothing. */
  lemma FixtureGetUnknown()
    ensures Get(Fixture(), 999).None?
  {
    assert !HasId(Fixture(), 999);
  }

  /** Update of the unknown id 999 returns None and changes neither the list nor the counter. */
  lemma FixtureUpdateUnknown(fact: Fact)
    ensures Update(Store(Fixture(), 3), 999, fact) == Outcome(Store(Fixture(), 3), None)
  {
    assert !HasId(Fixture(), 999);
  }

  /** Delete of the unknown id 999 returns false and keeps both facts. */
  lemma FixtureDeleteUnknown()
    ensures Delete(Store(Fixture(), 3), 999) == Outcome(Store(Fixture(), 3), false)
  {
    assert !HasId(Fixture(), 999);
  }

  /** Deleting id 1 succeeds, leaves a single fact, and id 1 is then not found. */
  lemma FixtureDeleteOne()
    ensures var o := Delete(Store(Fixture(), 3), 1);
      o.result && |o.store.facts| == 1 && Get(o.store.facts, 1).None?
  {
    DeleteThenGet(Store(Fixture(), 3), 1);
  }

  /**
    * Updating id 1 of the fixture returns the record with id 1 and the new
    * text, category and flag, and reading id 1 back gives the new text.
    */
  lemma FixtureUpdateOne(fact: Fact)
    ensures var u := Update(Store(Fixture(), 3), 1, fact);
      && u.result.Some?
      && u.result.value.id == 1
      && u.result.value.text == fact.text
      && u.result.value.category == fact.category
      && u.result.value.isVerified == fact.isVerified
      && Get(u.store.facts, 1) == u.result
  {
    UpdateThenGet(Store(Fixture(), 3), 1, fact);
  }

  /**
    * On the fixture, Create issues id 3; updating id 3 then keeps its
    * creation time, both in the returned record and when read back.
    */
  lemma FixtureUpdateKeepsCreatedAt(created: Fact, changed: Fact, now: Timestamp)
    ensures var c := Create(Store(Fixture(), 3), created, now);
      var u := Update(c.store, c.result.id, changed);
      && c.result.id == 3
      && u.result.Some? && u.result.value.createdAt == now
      && Get(u.store.facts, 3).Some? && Get(u.store.facts, 3).value.createdAt == now
  {
    var c := Create(Store(Fixture(), 3), created, now);
    CreateThenGet(Store(Fixture(), 3), created, now);
    UpdateThenGet(c.store, 3, changed);
  }

  /**
    * Within one repository a deleted id is not reused, but the counter is
    * recomputed from the file on load: after creating id 1, deleting it and
    * opening the file again, the next Create hands out id 1 once more.
    */
  lemma RestartReusesDeletedMaxId(fact: Fact, now: Timestamp, later: Timestamp)
    ensures var s0 := LoadFacts(Missing).value;
      var c := Create(s0, fact, now);
      var d := Delete(c.store, c.result.id);
      var reopened := LoadFacts(Saved(d.store)).value;
      && c.result.id == 1 && d.result && d.store.nextId == 2
      && Create(reopened, fact, later).result.id == 1
  {
    var s0 := LoadFacts(Missing).value;
    var c := Create(s0, fact, now);
    assert Delete(c.store, 1).store.facts == [];
  }
}
