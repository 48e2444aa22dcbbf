/** The per-document filters of `DocumentManager.search`: one for each criterion of
    a `SearchRequest`, with the stream operations they are built from. */
module Matching {
  import opened Wrappers
  import opened Documents

  /** `xs.stream().anyMatch(p)`. */
  function AnyMatch<T>(xs: seq<T>, p: T -> bool): (r: bool)
    ensures r <==> exists i :: 0 <= i < |xs| && p(xs[i])
  {
    if xs == [] then false
    else if p(xs[0]) then true
    else
      var r := AnyMatch(xs[1..], p);
      assert forall i :: 1 <= i < |xs| ==> xs[i] == xs[1..][i - 1];
      r
  }

  /** `sub` occurs in `s` as a contiguous block of characters. */
  ghost predicate IsSubstring(sub: string, s: string) {
    exists k :: 0 <= k <= |s| - |sub| && sub <= s[k..]
  }

  /** `s.contains(sub)`: tries every start position from the left. */
  function Contains(s: string, sub: string): bool
    decreases |s|
  {
    if sub <= s then true
    else if s == [] then false
    else Contains(s[1..], sub)
  }

  lemma {:induction false} ContainsIsSubstring(s: string, sub: string)
    ensures Contains(s, sub) <==> IsSubstring(sub, s)
    decreases |s|
  {
    if sub <= s {
      assert s[0..] == s;
    } else if s == [] {
    } else {
      ContainsIsSubstring(s[1..], sub);
      if IsSubstring(sub, s[1..]) {
        var k :| 0 <= k <= |s[1..]| - |sub| && sub <= s[1..][k..];
        assert s[1..][k..] == s[k + 1..];
      }
      if IsSubstring(sub, s) {
        var k :| 0 <= k <= |s| - |sub| && sub <= s[k..];
        assert k != 0 by { assert s[0..] == s; }
        assert s[1..][k - 1..] == s[k..];
      }
    }
  }

  /** A list criterion that constrains the search: present and non-empty. */
  predicate NonEmpty(list: Option<seq<string>>) {
    list.Some? && list.value != []
  }

  /** Some listed prefix starts `title`. */
  ghost predicate HasPrefixAmong(title: string, prefixes: seq<string>) {
    exists i :: 0 <= i < |prefixes| && prefixes[i] <= title
  }

  /** Some listed string occurs in `content`. */
  ghost predicate HasSubstringAmong(content: string, subs: seq<string>) {
    exists i :: 0 <= i < |subs| && IsSubstring(subs[i], content)
  }

  /** Some listed author id equals `id`. */
  ghost predicate HasIdAmong(id: Option<string>, ids: seq<string>) {
    exists i :: 0 <= i < |ids| && id == Some(ids[i])
  }

  /** `matchesTitlePrefixes`: the title is dereferenced only when the list is non-empty. */
  function MatchesTitlePrefixes(d: Document, titlePrefixes: Option<seq<string>>): (r: bool)
    requires NonEmpty(titlePrefixes) ==> d.title.Some?
    ensures r <==> !NonEmpty(titlePrefixes) || HasPrefixAmong(d.title.value, titlePrefixes.value)
  {
    titlePrefixes.None? || |titlePrefixes.value| == 0 ||
    AnyMatch(titlePrefixes.value, (prefix: string) => prefix <= d.title.value)
  }

  /** `containsContents`: the content is dereferenced only when the list is non-empty. */
  function ContainsContents(d: Document, containsContents: Option<seq<string>>): (r: bool)
    requires NonEmpty(containsContents) ==> d.content.Some?
    ensures r <==> !NonEmpty(containsContents) || HasSubstringAmong(d.content.value, containsContents.value)
  {
    if containsContents.None? || |containsContents.value| == 0 then true
    else
      var content := d.content.value;
      var r := AnyMatch(containsContents.value, (sub: string) => Contains(content, sub));
      assert forall sub :: Contains(content, sub) <==> IsSubstring(sub, content) by {
        forall sub ensures Contains(content, sub) <==> IsSubstring(sub, content) {
          ContainsIsSubstring(content, sub);
        }
      }
      r
  }

  /** `matchesAuthorIds`: the author is dereferenced only when the list is non-empty;
      a null author id is in no list of non-null strings. */
  function MatchesAuthorIds(d: Document, authorIds: Option<seq<string>>): (r: bool)
    requires NonEmpty(authorIds) ==> d.author.Some?
    ensures r <==> !NonEmpty(authorIds) || HasIdAmong(d.author.value.id, authorIds.value)
  {
    authorIds.None? || |authorIds.value| == 0 ||
    (d.author.value.id.Some? && d.author.value.id.value in authorIds.value)
  }

  /** `isWithinCreateRange`: `created` is dereferenced only when a bound is set, and
      both bounds are inclusive (`!isBefore`, `!isAfter`). */
  function IsWithinCreateRange(d: Document, createdFrom: Option<int>, createdTo: Option<int>): (r: bool)
    requires createdFrom.Some? || createdTo.Some? ==> d.created.Some?
    ensures r <==>
      && (createdFrom.Some? ==> createdFrom.value <= d.created.value)
      && (createdTo.Some? ==> d.created.value <= createdTo.value)
  {
    (createdFrom.None? || !(d.created.value < createdFrom.value)) &&
    (createdTo.None? || !(d.created.value > createdTo.value))
  }

  /** The filter chain of `search` reaches no null dereference on `d`. The stream
      applies the four filters to each document in turn and stops at the first that
      fails, so a field is only read once the filters before it have passed. */
  predicate Evaluable(d: Document, r: SearchRequest)
    ensures d.title.Some? && d.content.Some? && d.author.Some? && d.created.Some? ==> Evaluable(d, r)
  {
    && (NonEmpty(r.titlePrefixes) ==> d.title.Some?)
    && (MatchesTitlePrefixes(d, r.titlePrefixes) ==>
          && (NonEmpty(r.containsContents) ==> d.content.Some?)
          && (ContainsContents(d, r.containsContents) ==>
                && (NonEmpty(r.authorIds) ==> d.author.Some?)
                && (MatchesAuthorIds(d, r.authorIds) ==>
                      (r.createdFrom.Some? || r.createdTo.Some? ==> d.created.Some?))))
  }

  /** The reference meaning of a request: OR within each list criterion, AND across
      the five criteria, an absent or empty criterion imposing nothing. */
  ghost predicate MeetsCriteria(d: Document, r: SearchRequest) {
    && (NonEmpty(r.titlePrefixes) ==>
          d.title.Some? && HasPrefixAmong(d.title.value, r.titlePrefixes.value))
    && (NonEmpty(r.containsContents) ==>
          d.content.Some? && HasSubstringAmong(d.content.value, r.containsContents.value))
    && (NonEmpty(r.authorIds) ==>
          d.author.Some? && HasIdAmong(d.author.value.id, r.authorIds.value))
    && (r.createdFrom.Some? ==> d.created.Some? && r.createdFrom.value <= d.created.value)
    && (r.createdTo.Some? ==> d.created.Some? && d.created.value <= r.createdTo.value)
  }

  /** The four stream filters of `search`, in the order the source applies them. */
  function Matches(d: Document, r: SearchRequest): (b: bool)
    requires Evaluable(d, r)
    ensures b <==> MeetsCriteria(d, r)
  {
    && MatchesTitlePrefixes(d, r.titlePrefixes)
    && ContainsContents(d, r.containsContents)
    && MatchesAuthorIds(d, r.authorIds)
    && IsWithinCreateRange(d, r.createdFrom, r.createdTo)
  }

  /** A request with no criterion, null or empty, is met by every document, so the
      early return of `search` for an all-null request agrees with the filters. */
  lemma UnconstrainedRequestMeetsAll(d: Document, r: SearchRequest)
    requires !NonEmpty(r.titlePrefixes) && !NonEmpty(r.containsContents) && !NonEmpty(r.authorIds)
    requires r.createdFrom.None? && r.createdTo.None?
    ensures Evaluable(d, r) && Matches(d, r)
  {
  }
}
