# AwesomeFacts file-backed fact repository, in Dafny

This project models `JsonFactRepository`, the file-backed store behind the
AwesomeFacts CRUD backend. It holds an ordered in-memory list of `Fact`
records and a cached id counter. On construction it loads the list from a
JSON file. The counter is computed once at load time: one more than the
largest id, or 1 when the list is empty. Every change rewrites the whole
file.

Modules:

- `Wrappers`: `Option` (the source's `null`) and `Result` (an exception).
- `Models`: the `Fact` record. `createdAt` is a tick count.
- `FactStore`: the repository state as a value (`Store`). It also holds:
  - what the file holds after deserialisation (`FileContents`);
  - the searches (`MaxId`, `FirstIndex`, `Get`);
  - the load and save steps;
  - the three mutating operations as functions (`Create`, `Update`, `Delete`);
  - the lemmas that state what each operation promises.
- `History`: any sequence of Create/Update/Delete calls on one instance. It
  proves that:
  - ids are issued from the counter, in order and one apart;
  - the invariant "counter above every stored id" always holds;
  - a stored or deleted id is never issued again.
- `Data`: the imperative model.
  - `JsonFile` is the file at the repository's path.
  - `JsonFactRepository` is a class with the fields `facts` and `nextId`.
    Its object invariant is `Valid()`: the counter is above every stored
    id. Each method is proved to follow the matching `FactStore` function
    and to save the list exactly when the source does.
  - `Open` models the constructor, which can throw.
  - `CreateThenReopen` is a client that shows that a record survives a
    reopen of the file.
- `Scenarios`: concrete runs. They cover the tests' two-fact fixture and a
  restart after deleting the newest record.

Inputs the model takes as parameters: the current time for Create (`now`,
in place of `DateTime.UtcNow`), and the deserialised file contents.

Behaviour of the code worth noting:

- A file that the JSON deserialiser rejects does not give an empty
  dataset. `JsonSerializer.Deserialize` throws, so the constructor throws
  (AwesomeFacts.Data/JsonFactRepository.cs:33). `Open` returns `Failure` in
  that case.
- "Ids are never reused" holds only within one repository instance. The
  counter is recomputed when the file is opened again, as one more than the
  largest id still stored (1 if none is). So every id above that which was
  issued earlier and has since been deleted is issued again after a reopen
  (`Scenarios.RestartReusesDeletedMaxId` shows this for id 1).
- The repository does not check that text and category are non-empty.
- Ids loaded from a file need not be distinct. Get, Update and Delete act
  on the first match only. The lemmas that need distinct ids say so.

## Model

| member | source | states |
|---|---|---|
| `FactStore.MaxId` | AwesomeFacts.Data/JsonFactRepository.cs:43 | the result is at least every id in the list and is the id of some record |
| `FactStore.NextIdFor` | AwesomeFacts.Data/JsonFactRepository.cs:43 | the load-time counter is above every id; it is 1 for an empty list, otherwise one more than an id that is present (so one more than the largest) |
| `FactStore.FirstIndex` | AwesomeFacts.Data/JsonFactRepository.cs:60 | None only when no record has the id; otherwise an in-range index whose record has the id, with no match before it |
| `FactStore.Get` | AwesomeFacts.Data/JsonFactRepository.cs:58-61 | None exactly when no record has the id; otherwise the first record in the list with that id |
| `FactStore.LoadFacts` | AwesomeFacts.Data/JsonFactRepository.cs:26-44 | fails exactly on a malformed file; a missing file or null list gives an empty list with counter 1; otherwise the stored list as is, with the counter `NextIdFor` of it (1 for an empty list, the largest id + 1 otherwise); the counter is above every loaded id |
| `FactStore.CreateContract` | AwesomeFacts.Data/JsonFactRepository.cs:63-70 | `FactStore.Create` (the model of CreateFactAsync): the new record has id equal to the counter, the given time, and the caller's text, category and flag; it is appended after the unchanged old list; the length and the counter both grow by exactly one |
| `FactStore.CreatePreservesInvariants` | AwesomeFacts.Data/JsonFactRepository.cs:65-67 | Create keeps the counter above every id, and keeps distinct ids distinct |
| `FactStore.CreateThenGet` | AwesomeFacts.Data/JsonFactRepository.cs:65-67 | reading back the id that Create issued yields exactly the record Create returned |
| `FactStore.UpdateContract` | AwesomeFacts.Data/JsonFactRepository.cs:72-84 | `FactStore.Update` (the model of UpdateFactAsync): None exactly when the id is absent, and then the state is unchanged; otherwise only the first match is replaced: it keeps its id and createdAt and takes the caller's text, category and flag; the counter is unchanged |
| `FactStore.UpdatePreservesInvariants` | AwesomeFacts.Data/JsonFactRepository.cs:78-80 | Update keeps the length and every record's id, so the counter invariant and id distinctness carry over |
| `FactStore.UpdateThenGet` | AwesomeFacts.Data/JsonFactRepository.cs:74-83 | after a successful Update, Get of that id returns the updated record |
| `FactStore.DeleteContract` | AwesomeFacts.Data/JsonFactRepository.cs:86-95 | `FactStore.Delete` (the model of DeleteFactAsync): true exactly when the id is present; on false the state is unchanged; on true the first match is removed, the rest keep their order, the list is one shorter; the counter is unchanged |
| `FactStore.DeletePreservesInvariants` | AwesomeFacts.Data/JsonFactRepository.cs:88-92 | Delete keeps the counter above every id, and keeps distinct ids distinct |
| `FactStore.DeleteThenGet` | AwesomeFacts.Data/JsonFactRepository.cs:88-92 | with distinct ids, after a successful Delete the id is no longer found |
| `FactStore.ReloadRoundTrip` | AwesomeFacts.Data/JsonFactRepository.cs:43-50 | loading what was saved gives the same list and the same Get answers; for a non-empty list the recomputed counter is at most the cached one, and equal to it exactly when the id just below the counter is still stored |
| `History.StepPreservesInvariants` | AwesomeFacts.Data/JsonFactRepository.cs:63-95 | each mutating call keeps the counter above every id and keeps ids distinct |
| `History.RunPreservesInvariants` | AwesomeFacts.Data/JsonFactRepository.cs:63-95 | every sequence of calls keeps the counter above every id and keeps ids distinct |
| `History.IssuedFromCounter` | AwesomeFacts.Data/JsonFactRepository.cs:65 | the k-th id issued is the starting counter plus k; the final counter is the start plus the number of Creates |
| `History.IssuedDistinctAndFresh` | AwesomeFacts.Data/JsonFactRepository.cs:65 | issued ids strictly increase, none is below the starting counter, and the counter never decreases |
| `History.StoredIdNeverIssued` | AwesomeFacts.Data/JsonFactRepository.cs:43-67 | an id stored now is never issued by a later Create |
| `History.DeletedIdNeverReissued` | AwesomeFacts.Data/JsonFactRepository.cs:88-92 | an id removed by Delete is never issued again by the same repository |
| `Data.JsonFactRepository.constructor` | AwesomeFacts.Data/JsonFactRepository.cs:19-24 | the repository holds the loaded state for its file, and the invariant holds |
| `Data.JsonFactRepository.Open` | AwesomeFacts.Data/JsonFactRepository.cs:19-44 | fails exactly when the file is malformed; otherwise a fresh, valid repository whose state is `LoadFacts` of the file |
| `Data.JsonFactRepository.SaveFacts` | AwesomeFacts.Data/JsonFactRepository.cs:46-51 | the file afterwards holds the whole current list |
| `Data.JsonFactRepository.FindFirst` | AwesomeFacts.Data/JsonFactRepository.cs:60 | the linear scan returns the index of the first record with the id, or None when no record has it |
| `Data.JsonFactRepository.GetAllFacts` | AwesomeFacts.Data/JsonFactRepository.cs:53-56 | returns the stored list in insertion order |
| `Data.JsonFactRepository.GetFactById` | AwesomeFacts.Data/JsonFactRepository.cs:58-61 | None exactly when no record has the id; otherwise the first match (`FactStore.Get`) |
| `Data.JsonFactRepository.CreateFact` | AwesomeFacts.Data/JsonFactRepository.cs:63-70 | new state and result are those of `FactStore.Create`; the invariant is kept; the file holds the new list |
| `Data.JsonFactRepository.UpdateFact` | AwesomeFacts.Data/JsonFactRepository.cs:72-84 | new state and result are those of `FactStore.Update`; the invariant is kept; the file is untouched on None and rewritten on success |
| `Data.JsonFactRepository.DeleteFact` | AwesomeFacts.Data/JsonFactRepository.cs:86-95 | new state and result are those of `FactStore.Delete`; the invariant is kept; the file is untouched on false and rewritten on true |
| `Data.CreateThenReopen` | AwesomeFacts.Test/JsonFactRepositoryTests.cs:200-226 | a repository opened on the file after a Create finds the created record under its id, equal in every field |
| `Scenarios.FixtureCreate` | AwesomeFacts.Test/JsonFactRepositoryTests.cs:59-85 | with ids 1 and 2 loaded the counter is 3, and Create issues id 3 and makes the list three long |
| `Scenarios.FixtureGetUnknown` | AwesomeFacts.Test/JsonFactRepositoryTests.cs:48-57 | Get of id 999 on the fixture is None |
| `Scenarios.FixtureUpdateUnknown` | AwesomeFacts.Test/JsonFactRepositoryTests.cs:115-132 | Update of id 999 returns None and leaves list and counter unchanged |
| `Scenarios.FixtureDeleteUnknown` | AwesomeFacts.Test/JsonFactRepositoryTests.cs:185-198 | Delete of id 999 returns false and keeps both facts |
| `Scenarios.FixtureDeleteOne` | AwesomeFacts.Test/JsonFactRepositoryTests.cs:167-183 | Delete of id 1 returns true, leaves one fact, and id 1 is then not found |
| `Scenarios.FixtureUpdateOne` | AwesomeFacts.Test/JsonFactRepositoryTests.cs:87-113 | Update of id 1 on the fixture returns the record with id 1 and the new text, category and flag, and Get of id 1 then returns it |
| `Scenarios.FixtureUpdateKeepsCreatedAt` | AwesomeFacts.Test/JsonFactRepositoryTests.cs:134-165 | on the fixture Create issues id 3; Update of id 3 keeps its createdAt, in the returned record and when read back |
| `Scenarios.RestartReusesDeletedMaxId` | AwesomeFacts.Data/JsonFactRepository.cs:43 | after creating id 1 and deleting it, a repository opened on the saved file issues id 1 again |

## Left out

- File reading and writing, and JSON text: the file is modelled as the deserialised list it holds, and serialising then deserialising a list is taken to give it back. Property-name case folding and indentation are not modelled.
- A failing file write is not modelled: saving always succeeds.
- A JSON `null` inside the facts array (which makes the load throw a NullReferenceException at AwesomeFacts.Data/JsonFactRepository.cs:43) is not modelled: loaded records are values.
- Console logging: it has no behaviour to verify.
- `DateTime.UtcNow` is the parameter `now`, and `async`/`Task` is dropped: every operation is synchronous on the in-memory list.
- Reference aliasing is not modelled, because records are values. The source stores the caller's `Fact` object and returns the stored objects. `GetAllFactsAsync` returns the live list.
- Data.JsonFactRepository.CreateFact: the counter is an unbounded integer. C#'s unchecked `int` would wrap from 2147483647 to -2147483648 on `_nextId++`, and likewise on `Max + 1` at load time. The model does not capture that wrap-around.
- Concurrent callers racing on the counter and the file are not modelled: there is no locking in the source to model.
- The SQLite-backed repository and its EF Core context are not part of this model, because the database assigns ids in code that is not visible. The pass-through service, HTTP controller and startup wiring are not part of this model either: they have no logic of their own.
