/** The records of the document store: `Document`, `Author` and `SearchRequest`.
    Every field of the Java records may be null, so every field is an `Option`.
    Instants are modelled as integers: seconds since 1970-01-01T00:00:00Z. */
module Documents {
  import opened Wrappers

  /** An author attached to a document; it has no lifecycle of its own. */
  datatype Author = Author(id: Option<string>, name: Option<string>)

  /** A stored record. `created` is fixed the first time the document is saved. */
  datatype Document = Document(
    id: Option<string>,
    title: Option<string>,
    content: Option<string>,
    author: Option<Author>,
    created: Option<int>)

  /** A conjunctive filter with five independent, optional criteria. The lists
      hold non-null strings. */
  datatype SearchRequest = SearchRequest(
    titlePrefixes: Option<seq<string>>,
    containsContents: Option<seq<string>>,
    authorIds: Option<seq<string>>,
    createdFrom: Option<int>,
    createdTo: Option<int>)

  /** `StringUtils.isEmpty`: a null or zero-length string. */
  predicate IsEmpty(s: Option<string>)
    ensures IsEmpty(s) <==> s == None || s == Some("")
  {
    s.None? || s.value == ""
  }

  /** All five criteria of the request are null. */
  predicate AllNull(r: SearchRequest) {
    && r.titlePrefixes.None?
    && r.containsContents.None?
    && r.authorIds.None?
    && r.createdFrom.None?
    && r.createdTo.None?
  }
}
