/**
 * The web-search evidence source: one DuckDuckGo text search, each result rendered as the
 * line `title: body (Source: href)`. The search service itself is a parameter.
 */
module WebSearch {
  import opened Wrappers

  /** One search result: a string-to-string record whose keys may be missing. */
  type SearchRecord = map<string, string>

  /** The search service: `DDGS().text(query, max_results=...)`, which may raise. */
  type SearchService = (string, nat) -> Result<seq<SearchRecord>, string>

  /** The default of `max_results`. */
  const DefaultMaxResults: nat := 5

  /** `r.get(key, "")`. */
  function Field(r: SearchRecord, key: string): string {
    if key in r then r[key] else ""
  }

  /** The line for one result: `f"{title}: {snippet} (Source: {url})"`. */
  function FormatResult(r: SearchRecord): string {
    Field(r, "title") + ": " + Field(r, "body") + " (Source: " + Field(r, "href") + ")"
  }

  /**
   * `verify_with_duckduckgo(query, max_results)`: forwards both arguments to the search and
   * renders every result, one line per result and in the same order. A search that raises
   * makes the whole call raise with the same message.
   */
  method VerifyWithDuckDuckGo(query: string, maxResults: nat, search: SearchService)
    returns (results: Result<seq<string>, string>)
    ensures search(query, maxResults).Failure? ==> results == Failure(search(query, maxResults).error)
    ensures search(query, maxResults).Success? ==>
      var records := search(query, maxResults).value;
      && results.Success?
      && |results.value| == |records|
      && forall i :: 0 <= i < |records| ==> results.value[i] == FormatResult(records[i])
  {
    var found := search(query, maxResults);
    if found.Failure? {
      return Failure(found.error);
    }
    var records := found.value;
    var lines: seq<string> := [];
    for i := 0 to |records|
      invariant |lines| == i
      invariant forall k :: 0 <= k < i ==> lines[k] == FormatResult(records[k])
    {
      lines := lines + [FormatResult(records[i])];
    }
    results := Success(lines);
  }

  /** A missing `title`, `body` or `href` renders exactly like an empty one. */
  lemma MissingFieldIsEmpty(r: SearchRecord, key: string)
    requires key == "title" || key == "body" || key == "href"
    requires key !in r
    ensures FormatResult(r) == FormatResult(r[key := ""])
  {
  }

  /** A result with none of the three fields renders as `":  (Source: )"`. */
  lemma EmptyRecordLine()
    ensures FormatResult(map[]) == ":  (Source: )"
  {
  }

  /** Keys other than `title`, `body` and `href` do not affect the line. */
  lemma OtherKeysIgnored(r: SearchRecord, key: string, value: string)
    requires key != "title" && key != "body" && key != "href"
    ensures FormatResult(r[key := value]) == FormatResult(r)
  {
    var r' := r[key := value];
    assert Field(r', "title") == Field(r, "title");
    assert Field(r', "body") == Field(r, "body");
    assert Field(r', "href") == Field(r, "href");
  }
}
