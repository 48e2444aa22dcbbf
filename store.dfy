/** The in-memory document store: a map from id to document, written by `Save`
    and read by `Search` and `FindById`. */
module Store {
  import opened Wrappers
  import opened Documents
  import opened Matching

  /** Length of `UUID.toString()`: 32 hex digits and four hyphens. */
  const UuidLength := 36

  /** `id` is the first of the generated `uuids` that is not a key of `storage`. */
  ghost predicate FirstUnused(uuids: seq<string>, storage: map<string, Document>, id: string) {
    exists i :: 0 <= i < |uuids| && uuids[i] == id && id !in storage &&
      forall j :: 0 <= j < i ==> uuids[j] in storage
  }

  class DocumentManager {
    var storage: map<string, Document>

    /** Every key is non-empty and is the id of the document stored under it, and
        every stored document has a creation time. */
    ghost predicate Valid()
      reads this
    {
      forall k :: k in storage ==>
        k != "" && storage[k].id == Some(k) && storage[k].created.Some?
    }

    constructor ()
      ensures Valid() && storage == map[]
    {
      storage := map[];
    }

    /** The `do/while` loop of `save`: draws ids from `uuids`, the successive values
        of `UUID.randomUUID().toString()`, until one is not a key of the store. */
    method GenerateId(uuids: seq<string>) returns (newId: string)
      requires forall i :: 0 <= i < |uuids| ==> |uuids[i]| == UuidLength
      requires exists i :: 0 <= i < |uuids| && uuids[i] !in storage
      ensures newId != "" && newId !in storage
      ensures FirstUnused(uuids, storage, newId)
    {
      var i := 0;
      newId := uuids[0];
      while newId in storage
        invariant 0 <= i < |uuids| && newId == uuids[i]
        invariant forall j :: 0 <= j < i ==> uuids[j] in storage
        decreases |uuids| - i
      {
        i := i + 1;
        newId := uuids[i];
      }
    }

    /** Lines 41-55 of `save`: merge the incoming `document` (whose id is set) with
        the record `existing` stored under that id, if any. */
    static method Merge(existing: Option<Document>, document: Document, now: int)
      returns (merged: Document)
      ensures merged.id == document.id && merged.author == document.author
      ensures existing.Some? ==>
        && merged.created == existing.value.created
        && merged.title == (if document.title.Some? then document.title else existing.value.title)
        && merged.content == (if document.content.Some? then document.content else existing.value.content)
      ensures existing.None? ==>
        && merged.created == (if document.created.Some? then document.created else Some(now))
        && merged.title == document.title
        && merged.content == document.content
    {
      merged := document;
      if existing.Some? {
        merged := merged.(created := existing.value.created);
        if merged.title.None? {
          merged := merged.(title := existing.value.title);
        }
        if merged.content.None? {
          merged := merged.(content := existing.value.content);
        }
      } else if merged.created.None? {
        merged := merged.(created := Some(now));
      }
    }

    /** `save`: upsert `document`, generating an id from `uuids` when it has none and
        taking `now` as the current time. Returns the document as stored. */
    method Save(document: Document, uuids: seq<string>, now: int) returns (saved: Document)
      requires Valid()
      requires IsEmpty(document.id) ==>
        && (forall i :: 0 <= i < |uuids| ==> |uuids[i]| == UuidLength)
        && (exists i :: 0 <= i < |uuids| && uuids[i] !in storage)
      modifies this
      ensures Valid()
      ensures saved.id.Some? && storage == old(storage)[saved.id.value := saved]
      ensures IsEmpty(document.id) ==> saved.id.value != "" && FirstUnused(uuids, old(storage), saved.id.value)
      ensures IsEmpty(document.id) ==>
        storage.Keys == old(storage).Keys + {saved.id.value} && |storage| == |old(storage)| + 1
      ensures !IsEmpty(document.id) ==> saved.id == document.id
      ensures forall k :: k in old(storage) && k != saved.id.value ==> k in storage && storage[k] == old(storage)[k]
      ensures saved.author == document.author
      ensures saved.id.value in old(storage) ==>
        var existing := old(storage)[saved.id.value];
        && saved.created == existing.created
        && saved.title == (if document.title.Some? then document.title else existing.title)
        && saved.content == (if document.content.Some? then document.content else existing.content)
      ensures saved.id.value !in old(storage) ==>
        && saved.created == (if document.created.Some? then document.created else Some(now))
        && saved.title == document.title
        && saved.content == document.content
      ensures FindById(saved.id) == Some(saved)
    {
      var doc := document;
      if IsEmpty(doc.id) {
        var newId := GenerateId(uuids);
        doc := doc.(id := Some(newId));
      }
      var key := doc.id.value;
      var existing := if key in storage then Some(storage[key]) else None;
      saved := Merge(existing, doc, now);
      storage := storage[key := saved];
    }

    /** `search`. The result is a set: the source returns the matching values of a
        hash map in an unspecified order, one per matching key (see
        `SearchCountsMatchingKeys`). A stored document must not reach a null
        dereference in the filters, as `Evaluable` states. */
    function Search(request: Option<SearchRequest>): (result: set<Document>)
      reads this
      requires request.Some? ==> forall k :: k in storage ==> Evaluable(storage[k], request.value)
      ensures forall d :: d in result <==>
        d in storage.Values && (request.None? || MeetsCriteria(d, request.value))
    {
      if request.None? || AllNull(request.value) then
        assert forall d :: request.Some? ==> MeetsCriteria(d, request.value);
        storage.Values
      else
        set k | k in storage && Matches(storage[k], request.value) :: storage[k]
    }

    /** `findById`: a lookup that yields `None` for a null or unknown id. */
    function FindById(id: Option<string>): (r: Option<Document>)
      reads this
      ensures r.Some? <==> id.Some? && id.value in storage
      ensures r.Some? ==> r.value == storage[id.value]
      ensures Valid() && r.Some? ==> r.value.id == id
      ensures Valid() && IsEmpty(id) ==> r.None?
    {
      if id.Some? && id.value in storage then Some(storage[id.value]) else None
    }

    /** An absent request, an all-null one and one whose lists are all empty with no
        dates each return every stored document. */
    lemma SearchWithoutCriteriaReturnsAll()
      ensures Search(None) == storage.Values
      ensures Search(Some(SearchRequest(None, None, None, None, None))) == storage.Values
      ensures Search(Some(SearchRequest(Some([]), Some([]), Some([]), None, None))) == storage.Values
    {
    }

    /** A store whose documents all have a title, content and author can be searched
        with any request: the filters then dereference no null. */
    lemma PopulatedStoreIsSearchable(request: Option<SearchRequest>)
      requires Valid()
      requires forall k :: k in storage ==>
        storage[k].title.Some? && storage[k].content.Some? && storage[k].author.Some?
      ensures request.Some? ==> forall k :: k in storage ==> Evaluable(storage[k], request.value)
    {
    }

    /** Distinct keys hold distinct documents, so the result set has one element per
        matching key, as many as the list the source returns. */
    lemma SearchCountsMatchingKeys(request: Option<SearchRequest>)
      requires Valid()
      requires request.Some? ==> forall k :: k in storage ==> Evaluable(storage[k], request.value)
      ensures |Search(request)| ==
        |set k | k in storage && (request.None? || MeetsCriteria(storage[k], request.value))|
    {
      var keys := set k | k in storage && (request.None? || MeetsCriteria(storage[k], request.value));
      assert Search(request) == set k | k in keys :: storage[k];
      ImageOfKeysSize(storage, keys);
    }
  }

  /** Under the store invariant the documents under a set of keys are as many as the keys. */
  lemma {:induction false} ImageOfKeysSize(storage: map<string, Document>, keys: set<string>)
    requires keys <= storage.Keys
    requires forall k :: k in keys ==> storage[k].id == Some(k)
    ensures |set k | k in keys :: storage[k]| == |keys|
    decreases |keys|
  {
    if keys != {} {
      var k :| k in keys;
      var rest := keys - {k};
      ImageOfKeysSize(storage, rest);
      var image := set j | j in keys :: storage[j];
      var restImage := set j | j in rest :: storage[j];
      assert image == restImage + {storage[k]};
      assert storage[k] !in restImage;
    } else {
      assert (set j | j in keys :: storage[j]) == {};
    }
  }
}
