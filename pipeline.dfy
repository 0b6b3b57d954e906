/**
 * The fact-checking pipeline: a language model turns the claim into a search prompt, one web
 * search runs on that prompt, its results are serialised into an evidence string, and the
 * language model grades the claim against that evidence. Also the checkpoint-key rewrite and
 * the class-index rule of the deepfake classifier.
 */
module Pipeline {
  import opened Wrappers
  import opened PyStr
  import opened Seqs
  import WebSearch

  // ---------------------------------------------------------------------------
  // Foreign services and the calls made to them
  // ---------------------------------------------------------------------------

  /**
   * The two language-model requests of the chat client built from the API key:
   * `summarize_prompt(claims)` and `check_truthiness(search_results, claim)`. Either may raise.
   */
  datatype LanguageModel = LanguageModel(
    summarizePrompt: (string, string) -> Result<string, string>,              // (apiKey, claims)
    checkTruthiness: (string, string, string) -> Result<string, string>)      // (apiKey, search_results, claim)

  /** One request to a foreign service, in the order the pipeline issues them. */
  datatype Call =
    | SummarizePrompt(apiKey: string, claims: string)
    | WebSearchCall(query: string, maxResults: nat)
    | CheckTruthiness(apiKey: string, searchResults: string, claim: string)

  /** An evidence source and its entries, in the dictionary's order. */
  type Source = (string, seq<string>)

  /** The one source the pipeline queries. */
  const SourceName: string := "DuckDuckGo"

  // ---------------------------------------------------------------------------
  // Evidence string
  // ---------------------------------------------------------------------------

  /** `f"• {item}\n"`. */
  function Bullet(item: string): string {
    "\U{2022} " + item + "\n"
  }

  /** `f"\n{source}:\n"`. */
  function Header(source: string): string {
    "\n" + source + ":\n"
  }

  /** The bullet lines of a list of entries, in order. */
  function Bullets(items: seq<string>): string {
    Flatten(Bullet, items)
  }

  /** The block one source contributes: its header followed by its bullet lines. */
  function SourceBlock(source: Source): string {
    Header(source.0) + Bullets(source.1)
  }

  /** The evidence string: the blocks of the sources, in order. */
  function Evidence(sources: seq<Source>): string {
    Flatten(SourceBlock, sources)
  }

  /** Every entry appears as its own bullet line, between the lines of the entries before and after it. */
  lemma BulletAt(items: seq<string>, k: nat)
    requires k < |items|
    ensures Bullets(items) == Bullets(items[..k]) + Bullet(items[k]) + Bullets(items[k + 1..])
  {
    FlattenAt(Bullet, items, k);
  }

  /** A single source yields its header and then its bullets; with no entries, only the header. */
  lemma SingleSourceEvidence(source: string, items: seq<string>)
    ensures Evidence([(source, items)]) == Header(source) + Bullets(items)
    ensures items == [] ==> Evidence([(source, items)]) == "\n" + source + ":\n"
  {
    var one := [(source, items)];
    assert one[..0] == [] && one[0] == (source, items);
    assert Evidence(one) == Evidence([]) + SourceBlock((source, items));
  }

  /** The nested loop that serialises the sources into the evidence string. */
  method CombineEvidence(sources: seq<Source>) returns (combined: string)
    ensures combined == Evidence(sources)
  {
    combined := "";
    for i := 0 to |sources|
      invariant combined == Evidence(sources[..i])
    {
      var source, entries := sources[i].0, sources[i].1;
      combined := combined + "\n" + source + ":\n";
      for j := 0 to |entries|
        invariant combined == Evidence(sources[..i]) + Header(source) + Bullets(entries[..j])
      {
        assert entries[..j + 1][..j] == entries[..j];
        combined := combined + "\U{2022} " + entries[j] + "\n";
      }
      assert entries[..|entries|] == entries;
      assert sources[..i + 1][..i] == sources[..i];
    }
    assert sources[..|sources|] == sources;
  }

  // ---------------------------------------------------------------------------
  // fact_check_pipeline
  // ---------------------------------------------------------------------------

  /** What one run of the pipeline returns, and the requests it makes on the way. */
  datatype Run = Run(result: Result<string, string>, calls: seq<Call>)

  /** The result lines of a search: one per record, in order. */
  function FormatAll(records: seq<WebSearch.SearchRecord>): (lines: seq<string>)
    ensures |lines| == |records|
  {
    seq(|records|, i requires 0 <= i < |records| => WebSearch.FormatResult(records[i]))
  }

  /**
   * The run of `fact_check_pipeline(user_input, api_key)`: summarize the claim; search on the
   * prompt with the default result count; grade the original claim against the evidence. The
   * first request that raises ends the run with its message.
   */
  function PipelineRun(userInput: string, apiKey: string, llm: LanguageModel,
                       search: WebSearch.SearchService): Run
  {
    var summarize := SummarizePrompt(apiKey, userInput);
    var prompt := llm.summarizePrompt(apiKey, userInput);
    if prompt.Failure? then Run(Failure(prompt.error), [summarize])
    else
      var searchCall := WebSearchCall(prompt.value, WebSearch.DefaultMaxResults);
      var found := search(prompt.value, WebSearch.DefaultMaxResults);
      if found.Failure? then Run(Failure(found.error), [summarize, searchCall])
      else
        var evidence := Evidence([(SourceName, FormatAll(found.value))]);
        Run(llm.checkTruthiness(apiKey, evidence, userInput),
            [summarize, searchCall, CheckTruthiness(apiKey, evidence, userInput)])
  }

  /**
   * `fact_check_pipeline(user_input, api_key)`. Returns the evaluation (or the message of the
   * exception that ended the run) and the requests made, in order.
   */
  method FactCheckPipeline(userInput: string, apiKey: string, llm: LanguageModel,
                           search: WebSearch.SearchService)
    returns (evaluation: Result<string, string>, calls: seq<Call>)
    ensures evaluation == PipelineRun(userInput, apiKey, llm, search).result
    ensures calls == PipelineRun(userInput, apiKey, llm, search).calls
  {
    calls := [SummarizePrompt(apiKey, userInput)];
    var prompt := llm.summarizePrompt(apiKey, userInput);
    if prompt.Failure? {
      return Failure(prompt.error), calls;
    }
    var searchPrompt := prompt.value;

    calls := calls + [WebSearchCall(searchPrompt, WebSearch.DefaultMaxResults)];
    var found := WebSearch.VerifyWithDuckDuckGo(searchPrompt, WebSearch.DefaultMaxResults, search);
    if found.Failure? {
      return Failure(found.error), calls;
    }
    assert found.value == FormatAll(search(searchPrompt, WebSearch.DefaultMaxResults).value);
    var combined := CombineEvidence([(SourceName, found.value)]);

    calls := calls + [CheckTruthiness(apiKey, combined, userInput)];
    evaluation := llm.checkTruthiness(apiKey, combined, userInput);
  }

  /**
   * The order of requests: the claim is always summarized first, whatever it is (there is no
   * input check); the search runs on the prompt, never on the raw claim; the truthiness check gets the
   * evidence and the original claim, and its answer is the result unchanged. A request that
   * raises ends the run with its message and nothing after it is requested.
   */
  lemma PipelineCallOrder(userInput: string, apiKey: string, llm: LanguageModel,
                          search: WebSearch.SearchService)
    ensures var run := PipelineRun(userInput, apiKey, llm, search);
      var prompt := llm.summarizePrompt(apiKey, userInput);
      && 1 <= |run.calls| <= 3
      && run.calls[0] == SummarizePrompt(apiKey, userInput)
      && (prompt.Failure? ==> run.result == Failure(prompt.error) && |run.calls| == 1)
      && (prompt.Success? ==> |run.calls| >= 2 && run.calls[1] == WebSearchCall(prompt.value, 5))
      && (prompt.Success? && search(prompt.value, 5).Failure? ==>
            run.result == Failure(search(prompt.value, 5).error) && |run.calls| == 2)
      && (prompt.Success? && search(prompt.value, 5).Success? ==> |run.calls| == 3)
      && (|run.calls| == 3 ==>
            run.calls[2].CheckTruthiness? && run.calls[2].claim == userInput
            && run.calls[2].apiKey == apiKey
            && run.result == llm.checkTruthiness(apiKey, run.calls[2].searchResults, userInput))
  {
  }

  /**
   * When the search succeeds, the evidence of the truthiness check starts with the `DuckDuckGo` header and
   * holds one bullet line per search result, in the order of the results.
   */
  lemma CheckedEvidence(userInput: string, apiKey: string, llm: LanguageModel,
                       search: WebSearch.SearchService, k: nat)
    requires llm.summarizePrompt(apiKey, userInput).Success?
    requires search(llm.summarizePrompt(apiKey, userInput).value, WebSearch.DefaultMaxResults).Success?
    ensures var records := search(llm.summarizePrompt(apiKey, userInput).value, WebSearch.DefaultMaxResults).value;
      var lines := FormatAll(records);
      var run := PipelineRun(userInput, apiKey, llm, search);
      && |run.calls| == 3
      && run.calls[2] == CheckTruthiness(apiKey, Header(SourceName) + Bullets(lines), userInput)
      && (k < |records| ==>
            Bullets(lines) == Bullets(lines[..k]) + Bullet(WebSearch.FormatResult(records[k])) + Bullets(lines[k + 1..]))
  {
    var records := search(llm.summarizePrompt(apiKey, userInput).value, WebSearch.DefaultMaxResults).value;
    var lines := FormatAll(records);
    SingleSourceEvidence(SourceName, lines);
    if k < |records| {
      BulletAt(lines, k);
    }
  }

  // ---------------------------------------------------------------------------
  // Checkpoint keys of xceptionNet_inference
  // ---------------------------------------------------------------------------

  /** The prefix a data-parallel wrapper adds to every parameter name. */
  const WrapperPrefix: string := "module."

  /** `k.replace("module.", "")`. */
  function StripWrapper(key: string): string {
    RemoveAll(key, WrapperPrefix)
  }

  /** `any(k.startswith("module.") for k in state_dict.keys())`. */
  predicate HasWrappedKey<V>(entries: seq<(string, V)>) {
    exists i :: 0 <= i < |entries| && StartsWith(entries[i].0, WrapperPrefix)
  }

  /** The entries with `"module."` removed from every key, values and order kept. */
  function UnwrapKeys<V>(entries: seq<(string, V)>): (r: seq<(string, V)>)
    ensures |r| == |entries|
    ensures forall i :: 0 <= i < |r| ==> r[i] == (StripWrapper(entries[i].0), entries[i].1)
  {
    seq(|entries|, i requires 0 <= i < |entries| => (StripWrapper(entries[i].0), entries[i].1))
  }

  /**
   * The state dict handed to `load_state_dict`, built from the checkpoint's entries in order:
   * when some key starts with `"module."`, every key loses every occurrence of `"module."`;
   * otherwise the checkpoint is used as it is.
   */
  function LoadableStateDict<V>(entries: seq<(string, V)>): (m: map<string, V>)
    ensures !HasWrappedKey(entries) ==> m == InsertAll(map[], entries)
    ensures HasWrappedKey(entries) ==>
      m.Keys == set i | 0 <= i < |entries| :: StripWrapper(entries[i].0)
  {
    if HasWrappedKey(entries) then
      var r := UnwrapKeys(entries);
      assert forall i :: 0 <= i < |r| ==> r[i].0 == StripWrapper(entries[i].0);
      InsertAll(map[], r)
    else InsertAll(map[], entries)
  }

  /**
   * In a checkpoint with wrapped keys, every entry's value is loaded under its unwrapped key
   * unless a later entry unwraps to the same key, in which case the later value is loaded.
   */
  lemma UnwrappedValue<V>(entries: seq<(string, V)>, i: nat)
    requires HasWrappedKey(entries) && i < |entries|
    requires forall j :: i < j < |entries| ==> StripWrapper(entries[j].0) != StripWrapper(entries[i].0)
    ensures StripWrapper(entries[i].0) in LoadableStateDict(entries)
    ensures LoadableStateDict(entries)[StripWrapper(entries[i].0)] == entries[i].1
  {
    InsertAllLaterWins(map[], UnwrapKeys(entries), i);
  }

  /** A wrapped key `"module." + name` loads as `name` when `name` itself holds no `"module."`. */
  lemma WrappedKeyUnwrapped(name: string)
    requires !Contains(name, WrapperPrefix)
    ensures StripWrapper(WrapperPrefix + name) == name
  {
    RemoveAllLeading(WrapperPrefix, name);
    RemoveAllAbsent(name, WrapperPrefix);
  }

  /**
   * Two keys that collide after unwrapping, such as `module.fc` followed by `fc`: only the name
   * is loaded, with the later entry's value.
   */
  lemma CollisionKeepsLater<V>(name: string, a: V, b: V)
    requires !Contains(name, WrapperPrefix)
    ensures LoadableStateDict([(WrapperPrefix + name, a), (name, b)]) == map[name := b]
  {
    var entries := [(WrapperPrefix + name, a), (name, b)];
    assert StartsWith(entries[0].0, WrapperPrefix) by {
      assert (WrapperPrefix + name)[..|WrapperPrefix|] == WrapperPrefix;
    }
    WrappedKeyUnwrapped(name);
    RemoveAllAbsent(name, WrapperPrefix);
    UnwrappedValue(entries, 1);
    var m := LoadableStateDict(entries);
    assert m.Keys == {name};
  }

  /**
   * `"module."` is removed wherever it occurs, not only at the front: in `outer + "module." + name`
   * with no earlier occurrence, the key loads as `outer + name`.
   */
  lemma NestedWrapperUnwrapped(outer: string, name: string)
    requires forall i :: 0 <= i < |outer| ==> !OccursAt(outer + WrapperPrefix + name, WrapperPrefix, i)
    requires !Contains(name, WrapperPrefix)
    ensures StripWrapper(outer + WrapperPrefix + name) == outer + name
  {
    RemoveAllAfter(outer, WrapperPrefix, name);
    RemoveAllAbsent(name, WrapperPrefix);
  }

  /** For example, `features.module.fc` loads as `features.fc`. */
  lemma InnerWrapperExample()
    ensures StripWrapper("features.module.fc") == "features.fc"
  {
    var outer, name := "features.", "fc";
    var s := outer + WrapperPrefix + name;
    forall i | 0 <= i < |outer| ensures !OccursAt(s, WrapperPrefix, i) {
      assert s[i] == outer[i] != 'm';
      if i + |WrapperPrefix| <= |s| {
        assert s[i..i + |WrapperPrefix|][0] == s[i];
      }
    }
    forall i: nat | OccursAt(name, WrapperPrefix, i) ensures false {
    }
    NestedWrapperUnwrapped(outer, name);
    assert s == "features.module.fc" && outer + name == "features.fc";
  }

  // ---------------------------------------------------------------------------
  // Class index of the deepfake classifier
  // ---------------------------------------------------------------------------

  /** The classifier's output classes. */
  const NumClasses: nat := 2

  /** `is_fake = pred == 0`: class 0 is "fake", class 1 is "real". */
  function IsFake(predictedClass: nat): (fake: bool)
    requires predictedClass < NumClasses
    ensures fake <==> predictedClass == 0
    ensures !fake <==> predictedClass == 1
  {
    predictedClass == 0
  }
}
