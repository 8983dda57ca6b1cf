/**
  * The file-backed repository (AwesomeFacts.Data.JsonFactRepository): an
  * in-memory list of facts and a cached id counter, with the whole list
  * written back to the file after every change. Each method is proved to
  * follow the corresponding function of module FactStore.
  */
module Data {
  import opened Wrappers
  import opened Models
  import opened FactStore

  /** The file at the repository's path, as deserialised facts. */
  class JsonFile {
    var contents: FileContents

    constructor (contents: FileContents)
      ensures this.contents == contents
    {
      this.contents := contents;
    }
  }

  class JsonFactRepository {
    const file: JsonFile
    var facts: seq<Fact>
    var nextId: int

    /** The abstract state: `_facts` and `_nextId`. */
    function State(): Store
      reads this
    {
      Store(facts, nextId)
    }

    /** The object invariant: the counter is above every stored id. */
    ghost predicate Valid()
      reads this
    {
      CounterAbove(State())
    }

    /** A repository holding a state just read from `file`. */
    constructor (file: JsonFile, loaded: Store)
      requires CounterAbove(loaded)
      ensures this.file == file && State() == loaded && Valid()
    {
      this.file := file;
      facts := loaded.facts;
      nextId := loaded.nextId;
    }

    /**
      * `new JsonFactRepository(path)`: read the file and compute the counter.
      * A missing file or a null list gives an empty repository; text the
      * deserialiser rejects makes the constructor throw.
      */
    static method Open(file: JsonFile) returns (r: Result<JsonFactRepository, LoadError>)
      ensures r.Failure? <==> file.contents.Malformed?
      ensures r.Success? ==> fresh(r.value) && r.value.file == file && r.value.Valid()
      ensures r.Success? ==> Success(r.value.State()) == LoadFacts(file.contents)
    {
      match LoadFacts(file.contents)
      case Failure(e) =>
        r := Failure(e);
      case Success(loaded) =>
        var repo := new JsonFactRepository(file, loaded);
        r := Success(repo);
    }

    /** SaveFactsAsync: rewrite the whole file from the list. */
    method SaveFacts()
      modifies file
      ensures file.contents == Saved(State())
    {
      file.contents := Document(Some(facts));
    }

    /** The position of the first record with id `id` (List.FirstOrDefault's scan). */
    method FindFirst(id: int) returns (r: Option<nat>)
      ensures r.Some? ==> r.value < |facts| && facts[r.value].id == id
      ensures r.Some? ==> forall j :: 0 <= j < r.value ==> facts[j].id != id
      ensures r.None? ==> !HasId(facts, id)
      ensures r == FirstIndex(facts, id)
    {
      var i := 0;
      while i < |facts|
        invariant 0 <= i <= |facts|
        invariant forall j :: 0 <= j < i ==> facts[j].id != id
      {
        if facts[i].id == id {
          return Some(i);
        }
        i := i + 1;
      }
      return None;
    }

    /** GetAllFactsAsync: the list in insertion order. */
    method GetAllFacts() returns (r: seq<Fact>)
      ensures r == facts
    {
      r := facts;
    }

    /** GetFactByIdAsync: the first record with id `id`, or None. */
    method GetFactById(id: int) returns (r: Option<Fact>)
      ensures r.None? <==> !HasId(facts, id)
      ensures r == Get(facts, id)
    {
      var i := FindFirst(id);
      if i.Some? {
        r := Some(facts[i.value]);
      } else {
        r := None;
      }
    }

    /** CreateFactAsync: stamp the next id and the time, append, save. */
    method CreateFact(fact: Fact, now: Timestamp) returns (r: Fact)
      requires Valid()
      modifies this, file
      ensures Valid()
      ensures Outcome(State(), r) == Create(old(State()), fact, now)
      ensures file.contents == Saved(State())
    {
      ghost var before := State();
      r := fact.(id := nextId, createdAt := now);
      nextId := nextId + 1;
      facts := facts + [r];
      CreatePreservesInvariants(before, fact, now);
      SaveFacts();
    }

    /** UpdateFactAsync: overwrite text, category and flag of the first match, then save. */
    method UpdateFact(id: int, fact: Fact) returns (r: Option<Fact>)
      requires Valid()
      modifies this, file
      ensures Valid()
      ensures Outcome(State(), r) == Update(old(State()), id, fact)
      ensures r.None? ==> unchanged(file)
      ensures r.Some? ==> file.contents == Saved(State())
    {
      ghost var before := State();
      UpdatePreservesInvariants(before, id, fact);
      var i := FindFirst(id);
      if i.None? {
        return None;
      }
      var existing := facts[i.value];
      var updated := existing.(text := fact.text, category := fact.category,
                               isVerified := fact.isVerified);
      facts := facts[i.value := updated];
      SaveFacts();
      r := Some(updated);
    }

    /** DeleteFactAsync: remove the first match and save; say whether there was one. */
    method DeleteFact(id: int) returns (r: bool)
      requires Valid()
      modifies this, file
      ensures Valid()
      ensures Outcome(State(), r) == Delete(old(State()), id)
      ensures !r ==> unchanged(file)
      ensures r ==> file.contents == Saved(State())
    {
      ghost var before := State();
      DeletePreservesInvariants(before, id);
      var i := FindFirst(id);
      if i.None? {
        return false;
      }
      facts := facts[..i.value] + facts[i.value + 1..];
      SaveFacts();
      r := true;
    }
  }

  /**
    * Create a fact, then open a second repository on the same file: it finds
    * the created fact under its id with every field equal.
    */
  method CreateThenReopen(repo: JsonFactRepository, fact: Fact, now: Timestamp)
    returns (created: Fact, loaded: Option<Fact>)
    requires repo.Valid()
    modifies repo, repo.file
    ensures loaded == Some(created)
  {
    created := repo.CreateFact(fact, now);
    var reopened := JsonFactRepository.Open(repo.file);
    ReloadRoundTrip(repo.State(), created.id);
    CreateThenGet(old(repo.State()), fact, now);
    loaded := reopened.value.GetFactById(created.id);
  }
}
