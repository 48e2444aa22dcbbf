# DocumentManager: an in-memory document store

This project models `DocumentManager`, the in-memory document store of the
InnovateIU_Home_Task repository, and proves properties of the model. The store is a hash map
from a document id to a `Document` (id, title, content, author, creation instant).
It has three operations:

- `save` is an upsert. It draws random UUIDs until one is unused when the id is null
  or empty. It then merges with the record already stored under that id: the stored
  `created` always wins, and a null `title` or `content` falls back to the stored
  value. Last, it writes the result back under its id.
- `search` filters the stored documents with a request of five optional criteria.
  Within each list criterion any value may match (OR), and all criteria must hold
  (AND). The creation range is inclusive at both ends.
- `findById` is a map lookup.

Modules:

- `Wrappers` (wrappers.dfy): `Option`, which stands for Java's nullable references.
- `Documents` (documents.dfy): the `Author`, `Document` and `SearchRequest` records,
  with every nullable field as an `Option`, and `StringUtils.isEmpty`.
- `Matching` (matching.dfy): the four filters of `search` and the stream operations
  they use (`anyMatch`, `String.contains`). It also holds `Evaluable`, the condition
  under which the filter chain reaches no null dereference, and `MeetsCriteria`,
  the reference meaning of a request written with quantifiers.
- `Store` (store.dfy): the class `DocumentManager`, whose `storage` field is a
  `map<string, Document>`. `Valid()` is the store invariant: every key is non-empty,
  it is the id of the document stored under it, and that document has a creation
  time. `Save` is imperative and keeps the source's `do/while` loop (`GenerateId`).
  `Search` and `FindById` are functions that read the store.
- `Examples` (examples.dfy): the concrete cases of the repository's JUnit tests,
  as lemmas about `Search` and as client methods that call `Save`.

Foreign inputs become parameters. `UUID.randomUUID().toString()` is the sequence
`uuids` of the values the generator would return in turn: each is 36 characters
long, and one of them is unused. `Instant.now()` is the parameter `now`. Instants
are integers.

## Model

| member | source | states |
|---|---|---|
| `Store.DocumentManager.constructor` | src/main/java/com/example/innovateiu_home_task/DocumentManager.java:23 | A new store is empty and satisfies the store invariant. |
| `Store.DocumentManager.GenerateId` | src/main/java/com/example/innovateiu_home_task/DocumentManager.java:33-38 | The id is non-empty and not a key of the store, and it is the first unused value the generator returns. |
| `Store.DocumentManager.Merge` | src/main/java/com/example/innovateiu_home_task/DocumentManager.java:41-55 | On an update, `created` is the stored one; `title` and `content` are the caller's when non-null, else the stored ones. On an insert, `created` is the caller's when non-null, else `now`. The id and the author (null included) are always the caller's. |
| `Store.DocumentManager.Save` | src/main/java/com/example/innovateiu_home_task/DocumentManager.java:32-59 | Preserves the store invariant. The new store is the old one with the returned document under its id. A generated id is the first unused UUID, and the store grows by exactly one key. A given id is kept. No other key changes. The merge rules hold, and `FindById` then returns the saved document. |
| `Store.DocumentManager.Search` | src/main/java/com/example/innovateiu_home_task/DocumentManager.java:67-83 | A document is in the result iff it is stored and the request is null or it meets every criterion (`MeetsCriteria`). This holds whenever the filter chain dereferences no null. |
| `Store.DocumentManager.FindById` | src/main/java/com/example/innovateiu_home_task/DocumentManager.java:112-114 | Returns the stored document exactly when the id is a non-null key, and `None` otherwise. Under the invariant, the found document carries the requested id, and a null or empty id finds nothing. |
| `Store.DocumentManager.SearchWithoutCriteriaReturnsAll` | src/main/java/com/example/innovateiu_home_task/DocumentManager.java:68-75 | A null request, an all-null request, and one with empty lists and no dates each return every stored document. |
| `Store.DocumentManager.PopulatedStoreIsSearchable` | src/main/java/com/example/innovateiu_home_task/DocumentManager.java:77-104 | Under the store invariant, a store whose documents all have a title, content and author meets the precondition of `Search` for every request: no filter dereferences a null. |
| `Store.DocumentManager.SearchCountsMatchingKeys` | src/main/java/com/example/innovateiu_home_task/DocumentManager.java:74-82 | Under the invariant, the result has exactly as many documents as there are matching keys, which is the length of the list the source returns. |
| `Documents.IsEmpty` | src/main/java/com/example/innovateiu_home_task/DocumentManager.java:33 | `StringUtils.isEmpty`: true exactly for a null or zero-length id, the two cases in which `save` generates an id. |
| `Matching.Evaluable` | src/main/java/com/example/innovateiu_home_task/DocumentManager.java:77-104 | Holds iff the lazily evaluated filter chain dereferences no null. A document with every field non-null is evaluable for every request. |
| `Matching.AnyMatch` | src/main/java/com/example/innovateiu_home_task/DocumentManager.java:92-97 | `anyMatch` holds iff some element of the list satisfies the predicate. |
| `Matching.ContainsIsSubstring` | src/main/java/com/example/innovateiu_home_task/DocumentManager.java:92 | The left-to-right search of `Contains` holds iff the string occurs in the content at some position. |
| `Matching.MatchesTitlePrefixes` | src/main/java/com/example/innovateiu_home_task/DocumentManager.java:95-98 | True iff the list is null or empty, or some listed prefix starts the title. The title must be non-null only when the list is non-empty. |
| `Matching.ContainsContents` | src/main/java/com/example/innovateiu_home_task/DocumentManager.java:90-93 | True iff the list is null or empty, or some listed string occurs in the content. The content must be non-null only when the list is non-empty. |
| `Matching.MatchesAuthorIds` | src/main/java/com/example/innovateiu_home_task/DocumentManager.java:86-88 | True iff the list is null or empty, or the author's id equals some listed id. The author must be non-null only when the list is non-empty. |
| `Matching.IsWithinCreateRange` | src/main/java/com/example/innovateiu_home_task/DocumentManager.java:100-104 | True iff `createdFrom <= created` when the lower bound is set and `created <= createdTo` when the upper bound is set, so both bounds are inclusive. |
| `Matching.Matches` | src/main/java/com/example/innovateiu_home_task/DocumentManager.java:77-81 | The four chained filters hold iff the document meets the reference criteria: OR within each list, AND across the five criteria. |
| `Matching.UnconstrainedRequestMeetsAll` | src/main/java/com/example/innovateiu_home_task/DocumentManager.java:68-75 | With every list null or empty and no dates, the filters are defined and pass every document. So the early return for an all-null request agrees with the filters. |
| `Examples.SearchByTitlePrefix` | src/test/java/com/example/innovateiu_home_task/DocumentManagerTest.java:129-140 | With "title1" and "title2" stored, the prefix "title1" selects only the first document, and both prefixes select both. |
| `Examples.SearchByContent` | src/test/java/com/example/innovateiu_home_task/DocumentManagerTest.java:153-161 | The substring "content2" selects only the document that contains it. |
| `Examples.SearchByAuthorId` | src/test/java/com/example/innovateiu_home_task/DocumentManagerTest.java:193-201 | The author id "1" selects only that author's document. |
| `Examples.SearchByDateRange` | src/test/java/com/example/innovateiu_home_task/DocumentManagerTest.java:214-225 | The July-to-September range selects the August document only. A range whose bounds equal a document's `created` includes that document. |
| `Examples.SearchWithMultipleCriteria` | src/test/java/com/example/innovateiu_home_task/DocumentManagerTest.java:238-253 | D1 meets only the author criterion and D2 meets none; only D3, which meets all three, is returned. |
| `Examples.SearchEmptyStorage` | src/test/java/com/example/innovateiu_home_task/DocumentManagerTest.java:111-117 | An empty store returns nothing, whatever the request. |

The client methods `Examples.SaveWithoutIdScenario` and `Examples.UpdateScenario`
are variants of the save tests (DocumentManagerTest.java:30-100 and 331-341): the
first saves a second document under the empty id rather than null, and the second
updates with a null content rather than "Update Content". Their assertions
are proved from the contract of `Save` alone.

## Left out

- GenerateId and Save: `UUID.randomUUID()` and `Instant.now()` are inputs, not computed. The generator
  is a finite sequence that is required to contain an unused id. The source loops
  until one turns up, which with random UUIDs happens with probability one.
- Instants are unbounded integers counting seconds since the epoch (the unit is immaterial: any fixed unit,
  nanoseconds included, is an integer too). The finite range of `java.time.Instant` is not modelled.
- Strings are sequences of Unicode scalar values. Java strings holding unpaired surrogates, and prefixes or
  substrings that split a surrogate pair (which `startsWith` and `contains` compare by UTF-16 code unit,
  DocumentManager.java:92, 97), are not modelled.
- Aliasing is not modelled. The Java `save` mutates the caller's `Document` through its setters and stores and returns that
  same instance (DocumentManager.java:38, 44, 48, 51, 54, 57-58), so a caller who later mutates it also changes the
  store. Here `Document` is a value: `Save` returns the merged value and the caller's value is unchanged.
- Search: the source returns a `List` in hash-map iteration order, which is unspecified. The model returns a set.
  `SearchCountsMatchingKeys` shows that nothing is lost: the list has one entry per matching key, and the
  documents under distinct keys are distinct.
- The `NullPointerException` paths of the filters are not modelled as results. A null title, content or author
  is dereferenced when its list is non-empty, a null author id is passed to `authorIds.contains` when
  the author list is non-empty (which throws for lists that reject null queries), and a null `created` when a date bound is set
  (DocumentManager.java:87, 92, 97, 101-103). `Search` requires of every stored document that the filter
  chain, evaluated lazily in the source's order, reaches no such dereference (`Matching.Evaluable`); the
  null author id passed to `contains` is the one path it does not exclude (see `Matching.MatchesAuthorIds` below).
  Under the store invariant `created` is never null.
- A null element inside a criterion list is not modelled: the lists hold non-null strings. In the source,
  `startsWith(null)` and `contains(null)` throw, and `authorIds.contains(null)` would match a null author id.
- Matching.MatchesAuthorIds: the model takes `authorIds.contains(null)` (DocumentManager.java:87, a stored
  author with a null id) to return false, as `ArrayList` and `Collections.singletonList` do. Lists that
  reject null queries, such as those built by `List.of`, throw `NullPointerException` there instead;
  `Evaluable` does not exclude that case, so for such lists `Search` gives a result where the source throws.
- A null `document` passed to `save` is not modelled. It throws on `getId()` in the source.
- Lombok's generated builders, getters, setters and `equals` (DocumentManager.java:116-141) are replaced by
  datatype construction, update and value equality.
- Concurrency is not modelled. The source says not to consider it (DocumentManager.java:14).
