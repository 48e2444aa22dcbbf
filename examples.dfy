/** Concrete cases of the store's behaviour, taken from the repository's JUnit tests
    (DocumentManagerTest.java). */
module Examples {
  import opened Wrappers
  import opened Documents
  import opened Matching
  import opened Store

  function Doc(id: string, title: string, content: string, authorId: string, name: string, created: int): Document {
    Document(Some(id), Some(title), Some(content), Some(Author(Some(authorId), Some(name))), Some(created))
  }

  function ByTitles(prefixes: seq<string>): SearchRequest {
    SearchRequest(Some(prefixes), None, None, None, None)
  }

  /** 2024-08-19T10:15:30Z and its neighbours a month either side. */
  const August19 := 1724062530
  const July19 := 1721384130
  const September19 := 1726740930
  const June19 := 1718792130

  const D1 := Doc("1", "title1", "content1", "1", "Tom", August19)
  const D2 := Doc("2", "title2", "content2", "2", "Jack", June19)
  const D3 := Doc("3", "title3", "searchable content", "1", "Tom", August19)

  /** A string of the same length as `s` occurs in `s` only if it is `s`. */
  lemma NotSubstringOfSameLength(sub: string, s: string)
    requires |sub| == |s| && sub != s
    ensures !IsSubstring(sub, s)
  {
  }

  lemma ValuesOfD1D2(m: DocumentManager)
    requires m.storage == map["1" := D1, "2" := D2]
    ensures m.storage.Values == {D1, D2}
  {
    assert m.storage["1"] == D1 && m.storage["2"] == D2;
  }

  /** One prefix selects one document; two prefixes select either (OR within a list). */
  lemma SearchByTitlePrefix(m: DocumentManager)
    requires m.storage == map["1" := D1, "2" := D2]
    ensures m.Search(Some(ByTitles(["title1"]))) == {D1}
    ensures m.Search(Some(ByTitles(["title1", "title2"]))) == {D1, D2}
  {
    ValuesOfD1D2(m);
    assert "title1"[5] != "title2"[5];
    assert HasPrefixAmong("title1", ["title1"]) by {
      assert ["title1"][0] <= "title1";
    }
    assert HasPrefixAmong("title1", ["title1", "title2"]) by {
      assert ["title1", "title2"][0] <= "title1";
    }
    assert HasPrefixAmong("title2", ["title1", "title2"]) by {
      assert ["title1", "title2"][1] <= "title2";
    }
  }

  /** A content substring selects the document that contains it. */
  lemma SearchByContent(m: DocumentManager)
    requires m.storage == map["1" := D1, "2" := D2]
    ensures m.Search(Some(SearchRequest(None, Some(["content2"]), None, None, None))) == {D2}
  {
    ValuesOfD1D2(m);
    assert IsSubstring("content2", "content2") by {
      assert "content2" <= "content2"[0..];
    }
    assert HasSubstringAmong("content2", ["content2"]) by {
      assert IsSubstring(["content2"][0], "content2");
    }
    assert "content2"[7] != "content1"[7];
    NotSubstringOfSameLength("content2", "content1");
  }

  /** An author id selects that author's documents. */
  lemma SearchByAuthorId(m: DocumentManager)
    requires m.storage == map["1" := D1, "2" := D2]
    ensures m.Search(Some(SearchRequest(None, None, Some(["1"]), None, None))) == {D1}
  {
    ValuesOfD1D2(m);
    assert HasIdAmong(Some("1"), ["1"]) by {
      assert Some(["1"][0]) == Some("1");
    }
    assert "1"[0] != "2"[0];
  }

  /** The creation range is inclusive at both ends. */
  lemma SearchByDateRange(m: DocumentManager)
    requires m.storage == map["1" := D1, "2" := D2]
    ensures m.Search(Some(SearchRequest(None, None, None, Some(July19), Some(September19)))) == {D1}
    ensures m.Search(Some(SearchRequest(None, None, None, Some(August19), Some(August19)))) == {D1}
    ensures m.Search(Some(SearchRequest(None, None, None, Some(June19), Some(June19)))) == {D2}
  {
    ValuesOfD1D2(m);
  }

  /** Three criteria together select the one document meeting all of them (AND across
      criteria): D1 meets only the author criterion and D2 meets none; only D3, which
      meets all three, is returned. */
  lemma SearchWithMultipleCriteria(m: DocumentManager)
    requires m.storage == map["1" := D1, "2" := D2, "3" := D3]
    ensures m.Search(Some(SearchRequest(Some(["title3"]), Some(["searchable content"]), Some(["1"]), None, None))) == {D3}
  {
    assert m.storage.Values == {D1, D2, D3} by {
      assert m.storage["1"] == D1 && m.storage["2"] == D2 && m.storage["3"] == D3;
    }
    assert HasPrefixAmong("title3", ["title3"]) by {
      assert ["title3"][0] <= "title3";
    }
    assert IsSubstring("searchable content", "searchable content") by {
      assert "searchable content" <= "searchable content"[0..];
    }
    assert HasSubstringAmong("searchable content", ["searchable content"]) by {
      assert IsSubstring(["searchable content"][0], "searchable content");
    }
    assert HasIdAmong(Some("1"), ["1"]) by {
      assert Some(["1"][0]) == Some("1");
    }
    assert "title1"[5] != "title3"[5] && "title2"[5] != "title3"[5];
  }

  /** An empty store yields nothing, whatever the request. */
  lemma SearchEmptyStorage(m: DocumentManager, request: SearchRequest)
    requires m.storage == map[]
    ensures m.Search(Some(request)) == {} && m.Search(None) == {}
  {
  }

  lemma FirstUnusedOfEmpty(uuids: seq<string>, id: string)
    requires FirstUnused(uuids, map[], id)
    ensures |uuids| > 0 && id == uuids[0]
  {
  }

  lemma FirstUnusedAfterFirst(uuids: seq<string>, storage: map<string, Document>, id: string)
    requires |uuids| >= 2 && storage.Keys == {uuids[0]} && uuids[1] !in storage
    requires FirstUnused(uuids, storage, id)
    ensures id == uuids[1]
  {
  }

  /** A document saved without an id gets a fresh id and the current time, and is
      found again under that id. A variant of testSaveDocumentWithoutId and
      testSaveDocumentWithEmptyTitle: the second save passes the empty id rather than
      null, the other case of `isEmpty`. */
  method SaveWithoutIdScenario(uuids: seq<string>, now: int)
    requires forall i :: 0 <= i < |uuids| ==> |uuids[i]| == UuidLength
    requires |uuids| >= 2 && uuids[0] != uuids[1]
  {
    var m := new DocumentManager();
    assert uuids[0] !in m.storage;
    var saved := m.Save(Document(None, Some("test title"), Some("test content"), Some(Author(Some("1"), Some("Tom"))), None), uuids, now);
    FirstUnusedOfEmpty(uuids, saved.id.value);
    assert saved.created == Some(now);
    assert m.FindById(saved.id) == Some(saved);
    assert m.storage.Keys == {uuids[0]};
    assert uuids[1] !in m.storage;
    ghost var before := m.storage;
    var untitled := m.Save(Document(Some(""), Some(""), Some("content"), Some(Author(Some("1"), Some("Tom"))), None), uuids, now);
    FirstUnusedAfterFirst(uuids, before, untitled.id.value);
    assert untitled.created == Some(now);
  }

  /** Saving again under a known id keeps `created` and falls back to the stored title
      and content where the new ones are null, while a null author replaces the stored
      one. A variant of testSaveDocumentWithExistingId and testUpdateDocumentWithNullFields:
      the second save passes a null content, so that the fallback to the stored content
      is exercised alongside a new title. */
  method UpdateScenario(id: string, now: int)
    requires id != ""
  {
    var m := new DocumentManager();
    var first := m.Save(Document(Some(id), Some("initial title"), Some("initial Content"), Some(Author(Some("1"), Some("Tom"))), Some(now - 60)), [], now);
    var second := m.Save(Document(Some(id), Some("UpdateTitle"), None, Some(Author(Some("1"), Some("UpdateTom"))), None), [], now);
    assert second.id == Some(id) && second.created == Some(now - 60);
    assert second.title == Some("UpdateTitle") && second.content == Some("initial Content");
    var third := m.Save(Document(Some(id), None, None, None, None), [], now);
    assert third.title == Some("UpdateTitle") && third.content == Some("initial Content");
    assert third.author == None && third.created == Some(now - 60);
    assert m.storage == map[id := third];
  }
}
