/**
 * The key handling and request handlers of the web front end: one stored API key file, the
 * load/save/use actions on it, the chat handler that runs the fact-checking pipeline, and the
 * image handler that short-circuits when no image was given.
 */
module App {
  import opened Wrappers
  import opened PyStr
  import WebSearch
  import Pipeline

  /** The state of `api_key.txt`. */
  datatype KeyFile =
    | Missing                     // the file does not exist
    | Unreadable                  // it exists, but reading it raises
    | Holds(contents: string)     // it exists and holds the text `contents`, as written

  const LoadedStatus: string := "Loaded API key from file api_key.txt"
  const NotFoundStatus: string := "No api_key.txt found. Paste your GROQ API key and click save"
  const BlankKeyStatus: string := "Please enter your key here."
  const SavedStatus: string := "API key saved to api_key.txt"
  const NoKeyStatus: string := "No api key available"
  const UsingStoredStatus: string := "Using key from api_key.txt"
  const NoKeyReply: string := "No key available."

  // ---------------------------------------------------------------------------
  // Reading the key file back
  // ---------------------------------------------------------------------------

  /**
   * `read_text()` of a file holding `s`: it reads in universal-newlines mode, so every `"\r\n"`
   * and every lone `'\r'` comes back as `'\n'`. (`write_text` on POSIX writes the text as it is.)
   */
  function ReadText(s: string): (r: string)
    ensures |r| <= |s|
    decreases |s|
  {
    if s == [] then []
    else if s[0] == '\r' then "\n" + ReadText(if |s| > 1 && s[1] == '\n' then s[2..] else s[1..])
    else [s[0]] + ReadText(s[1..])
  }

  /** No `'\r'` survives the read, and a text without one reads back unchanged. */
  lemma {:induction false} ReadTextCarriageReturns(s: string)
    ensures '\r' !in ReadText(s)
    ensures '\r' !in s ==> ReadText(s) == s
    decreases |s|
  {
    if s != [] {
      if s[0] == '\r' {
        ReadTextCarriageReturns(if |s| > 1 && s[1] == '\n' then s[2..] else s[1..]);
      } else {
        ReadTextCarriageReturns(s[1..]);
        assert s == [s[0]] + s[1..];
      }
    }
  }

  /** The read maps whitespace to whitespace: it is all whitespace exactly when the file is. */
  lemma {:induction false} ReadTextWhitespace(s: string)
    ensures AllWhitespace(ReadText(s)) <==> AllWhitespace(s)
    decreases |s|
  {
    if s != [] {
      var rest := if s[0] == '\r' && |s| > 1 && s[1] == '\n' then s[2..] else s[1..];
      var head := s[..|s| - |rest|];
      var c := if s[0] == '\r' then '\n' else s[0];
      ReadTextWhitespace(rest);
      assert s == head + rest;
      assert ReadText(s) == [c] + ReadText(rest);
      AllWhitespaceConcat(head, rest);
      AllWhitespaceConcat([c], ReadText(rest));
      assert AllWhitespace(head) <==> AllWhitespace([c]) by {
        assert s[0] != '\r' ==> head == [c];
      }
    }
  }

  /** A lone `'\r'`, not followed by `'\n'`, after text without carriage returns reads as `'\n'`. */
  lemma {:induction false} ReadTextLoneCarriageReturn(a: string, b: string)
    requires '\r' !in a && (b == [] || b[0] != '\n')
    ensures ReadText(a + "\r" + b) == a + "\n" + ReadText(b)
    decreases |a|
  {
    var s := a + "\r" + b;
    if a == [] {
      assert s[0] == '\r' && s[1..] == b;
    } else {
      assert s[0] == a[0] && s[1..] == a[1..] + "\r" + b;
      ReadTextLoneCarriageReturn(a[1..], b);
      assert [a[0]] + a[1..] == a;
    }
  }

  /** A `"\r\n"` pair after text without carriage returns reads as a single `'\n'`. */
  lemma {:induction false} ReadTextCrLf(a: string, b: string)
    requires '\r' !in a
    ensures ReadText(a + "\r\n" + b) == a + "\n" + ReadText(b)
    decreases |a|
  {
    var s := a + "\r\n" + b;
    if a == [] {
      assert s[0] == '\r' && s[1] == '\n' && s[2..] == b;
    } else {
      assert s[0] == a[0] && s[1..] == a[1..] + "\r\n" + b;
      ReadTextCrLf(a[1..], b);
      assert [a[0]] + a[1..] == a;
    }
  }

  /** A character that is not whitespace at either end of the file is kept there by the read. */
  lemma ReadTextEdges(s: string)
    ensures s != [] && !IsWhitespace(s[0]) ==> ReadText(s) != [] && ReadText(s)[0] == s[0]
    ensures s != [] && !IsWhitespace(s[|s| - 1]) ==>
              ReadText(s) != [] && ReadText(s)[|ReadText(s)| - 1] == s[|s| - 1]
  {
    if s != [] && !IsWhitespace(s[|s| - 1]) {
      ReadTextLast(s);
    }
  }

  lemma {:induction false} ReadTextLast(s: string)
    requires s != [] && !IsWhitespace(s[|s| - 1])
    ensures ReadText(s) != [] && ReadText(s)[|ReadText(s)| - 1] == s[|s| - 1]
    decreases |s|
  {
    var rest := if s[0] == '\r' && |s| > 1 && s[1] == '\n' then s[2..] else s[1..];
    var c := if s[0] == '\r' then '\n' else s[0];
    assert ReadText(s) == [c] + ReadText(rest);
    if rest != [] {
      assert rest[|rest| - 1] == s[|s| - 1];
      ReadTextLast(rest);
    }
  }

  /** A stripped key reads back stripped and non-empty. */
  lemma ReadTextKeepsStripped(k: string)
    requires k != [] && NoEdgeWhitespace(k)
    ensures ReadText(k) != [] && Strip(ReadText(k)) == ReadText(k)
  {
    ReadTextEdges(k);
    StripFixpoint(ReadText(k));
  }

  /**
   * `get_api_key()` on a given file state: the stripped text read from the file, or `None` when
   * the file is missing, cannot be read, or holds only whitespace.
   */
  function StoredKey(file: KeyFile): (key: Option<string>)
    ensures key.None? <==> file.Missing? || file.Unreadable? || AllWhitespace(file.contents)
    ensures key.Some? ==> key.value != [] && key.value == Strip(ReadText(file.contents))
  {
    match file
    case Missing => None
    case Unreadable => None
    case Holds(contents) =>
      ReadTextWhitespace(contents);
      var key := Strip(ReadText(contents));
      if key != [] then Some(key) else None
  }

  /** `(key or "").strip()` for a text box value that may be `None`. */
  function CleanInput(key: Option<string>): (k: string)
    ensures NoEdgeWhitespace(k)
    ensures k == [] <==> AllWhitespace(key.GetOr(""))
  {
    Strip(key.GetOr(""))
  }

  /**
   * A key that was saved is read back as `read_text` returns it: with its carriage returns
   * turned into newlines, and otherwise unchanged (stripping it again does nothing).
   */
  lemma SavedKeyReadsBack(input: Option<string>)
    requires CleanInput(input) != []
    ensures StoredKey(Holds(CleanInput(input))) == Some(ReadText(CleanInput(input)))
    ensures '\r' !in CleanInput(input) ==> StoredKey(Holds(CleanInput(input))) == Some(CleanInput(input))
  {
    StoredKeyOfStripped(CleanInput(input));
    ReadTextCarriageReturns(CleanInput(input));
  }

  /** A file holding a non-empty key without whitespace at its ends yields that key, as read. */
  lemma StoredKeyOfStripped(k: string)
    requires k != [] && NoEdgeWhitespace(k)
    ensures StoredKey(Holds(k)) == Some(ReadText(k))
  {
    ReadTextKeepsStripped(k);
  }

  /** A saved key `ab\rcd` is read back, and used, as `ab\ncd`. */
  lemma CarriageReturnReadAsNewline()
    ensures StoredKey(Holds("ab\rcd")) == Some("ab\ncd")
  {
    var s := "ab\rcd";
    assert ReadText(s) == "ab\ncd" by {
      ReadTextCarriageReturns("cd");
      ReadTextLoneCarriageReturn("ab", "cd");
      assert "ab" + "\r" + "cd" == s && "ab" + "\n" + "cd" == "ab\ncd";
    }
    assert NoEdgeWhitespace(s) by { assert s[0] == 'a' && s[|s| - 1] == 'd'; }
    StoredKeyOfStripped(s);
  }

  /**
   * The key `chat_reply` uses: `get_api_key() or (key_from_ui or "").strip()`. A stored key
   * always wins over the text box; the empty string means there is no key.
   */
  function ChosenKey(stored: Option<string>, keyFromUi: Option<string>): (key: string)
    ensures stored.Some? && stored.value != [] ==> key == stored.value
    ensures stored.None? || stored.value == [] ==> key == CleanInput(keyFromUi)
    ensures key == [] <==> (stored.None? || stored.value == []) && AllWhitespace(keyFromUi.GetOr(""))
  {
    if stored.Some? && stored.value != [] then stored.value else CleanInput(keyFromUi)
  }

  /** The chat reply for a pipeline outcome: its answer, or `f"Error: {e}"`. */
  function ReplyText(result: Result<string, string>): (reply: string)
    ensures result.Failure? ==> reply == "Error: " + result.error
    ensures result.Success? ==> reply == result.value
  {
    match result
    case Success(answer) => answer
    case Failure(e) => "Error: " + e
  }

  /** The stored key file and the actions of the key panel and the chat box. */
  class KeyStore {
    var file: KeyFile

    constructor(initial: KeyFile)
      ensures file == initial
    {
      file := initial;
    }

    /** `get_api_key()`. */
    function GetApiKey(): (k: Option<string>)
      reads this
      ensures k.Some? ==> k.value != [] && NoEdgeWhitespace(k.value)
    {
      StoredKey(file)
    }

    /** `load_key()`: the text box value and the status line shown when the page loads. */
    method LoadKey() returns (value: string, status: string)
      ensures GetApiKey().Some? ==> value == GetApiKey().value && status == LoadedStatus
      ensures GetApiKey().None? ==> value == "" && status == NotFoundStatus
    {
      var key := GetApiKey();
      if key.Some? {
        return key.value, LoadedStatus;
      } else {
        return "", NotFoundStatus;
      }
    }

    /**
     * `save_key(key)`: a blank key is refused and nothing is stored; otherwise the stripped key
     * replaces the file's contents.
     */
    method SaveKey(key: Option<string>) returns (status: string)
      modifies this
      ensures CleanInput(key) == [] ==> status == BlankKeyStatus && file == old(file)
      ensures CleanInput(key) != [] ==> status == SavedStatus && file == Holds(CleanInput(key))
    {
      var cleaned := CleanInput(key);
      if cleaned == [] {
        return BlankKeyStatus;
      }
      file := Holds(cleaned);
      status := SavedStatus;
    }

    /**
     * `use_key(input_key)`: a stored key is kept and reported; without one, the input is saved
     * when it is not blank.
     */
    method UseKey(inputKey: Option<string>) returns (status: string)
      modifies this
      ensures old(GetApiKey()).Some? ==> status == UsingStoredStatus && file == old(file)
      ensures old(GetApiKey()).None? && CleanInput(inputKey) == [] ==>
                status == NoKeyStatus && file == old(file)
      ensures old(GetApiKey()).None? && CleanInput(inputKey) != [] ==>
                status == SavedStatus && file == Holds(CleanInput(inputKey))
    {
      var key := GetApiKey();
      if key.None? {
        var msg := SaveKey(inputKey);
        var cleaned := CleanInput(inputKey);
        if cleaned == [] {
          return NoKeyStatus;
        }
        status := msg;
      } else {
        status := UsingStoredStatus;
      }
    }

    /**
     * `chat_reply(message, history, key_from_ui)`: without any key, a fixed reply and no request
     * at all; otherwise the pipeline's answer, or its error message prefixed by `Error: `.
     */
    method ChatReply(message: string, keyFromUi: Option<string>, llm: Pipeline.LanguageModel,
                     search: WebSearch.SearchService)
      returns (reply: string, calls: seq<Pipeline.Call>)
      ensures var key := ChosenKey(GetApiKey(), keyFromUi);
        && (key == [] ==> reply == NoKeyReply && calls == [])
        && (key != [] ==>
              && calls == Pipeline.PipelineRun(message, key, llm, search).calls
              && reply == ReplyText(Pipeline.PipelineRun(message, key, llm, search).result))
    {
      var key := ChosenKey(GetApiKey(), keyFromUi);
      if key == [] {
        return NoKeyReply, [];
      }
      var evaluation;
      evaluation, calls := Pipeline.FactCheckPipeline(message, key, llm, search);
      if evaluation.Failure? {
        reply := "Error: " + evaluation.error;
      } else {
        reply := evaluation.value;
      }
    }
  }

  /**
   * Once a non-blank key has been saved, the file yields it back (as `read_text` returns it), and
   * the chat uses it whatever is typed in the text box afterwards.
   */
  lemma SavedKeyUsedForChat(input: Option<string>, nextInput: Option<string>)
    requires CleanInput(input) != []
    ensures StoredKey(Holds(CleanInput(input))).Some?
    ensures ChosenKey(StoredKey(Holds(CleanInput(input))), nextInput) == ReadText(CleanInput(input))
  {
    SavedKeyReadsBack(input);
  }

  // ---------------------------------------------------------------------------
  // check_deepfake
  // ---------------------------------------------------------------------------

  /** The answer of `check_deepfake`: `False` without an image, else the detector's result. */
  datatype DeepfakeAnswer<T> = NoImage | Detected(result: T)

  /**
   * `check_deepfake(image_path)`: with no path or an empty one the detector is not run;
   * otherwise its result is returned as it is.
   */
  function CheckDeepfake<T>(imagePath: Option<string>, detect: string -> T): (answer: DeepfakeAnswer<T>)
    ensures answer.NoImage? <==> imagePath.None? || imagePath.value == []
    ensures answer.Detected? ==> answer.result == detect(imagePath.value)
  {
    if imagePath.None? || imagePath.value == [] then NoImage else Detected(detect(imagePath.value))
  }
}
