# Disinformation checker: a Dafny model of its deterministic core

This project models the deterministic logic of a small disinformation-checking application.
The application takes a claim, asks a language model for a search prompt, runs one DuckDuckGo
text search and asks the language model to grade the claim against the search results. Around
that pipeline sit a text-cleaning module, a web front end that manages one stored API key, and
two batch converters that turn a folder of images (OCR) or audio files (speech recognition) into
`.txt` files.

Every foreign service is a parameter of the model. These are the language model, the search
engine, the OCR engine, the speech recogniser, the HTML stripper, the tokenizer, the stop-word
list and the deepfake detector. A service that can raise returns a `Result`. The model
describes exactly what the code does with each answer. The pipeline returns the requests it
made, in order, as a list of `Call` values, so that the order of the foreign calls can be stated
and proved.

Modules:

- `Wrappers`: `Option` and `Result`.
- `PyStr`: the Python `str` operations the code relies on. These are `isspace` (the class of
  `\s`), `lower()`, `strip()`, `startswith`/`endswith`, `' '.join`, `split(' ')` and
  `replace(old, "")`.
- `Seqs`: order-preserving filters, the filter-map `Collect`, `InsertAll` (dict assignment
  applied pair by pair), the first index that satisfies a test, and the concatenation of
  per-element strings.
- `TextCleaning`: `normalize`, `remove_special_chars`, `remove_stopwords` and `preprocess_text`.
- `WebSearch`: `verify_with_duckduckgo`.
- `Pipeline`: `fact_check_pipeline`, including its nested evidence loop, the checkpoint-key
  rewrite and the `is_fake` rule of `xceptionNet_inference`.
- `FileSystem`: `os.path.join`, `os.path.splitext`, the `.txt` output name and an output folder
  (a class whose `files` map the converters update in place).
- `ImageOcr`: `ocr_image` and `process_folder`.
- `AudioToText`: `transcribe_audio` and `process_audio_folder`.
- `App`: `get_api_key`, `load_key`, `save_key`, `use_key`, `chat_reply` and `check_deepfake`,
  over a `KeyStore` class that holds the state of `api_key.txt`.

Behaviour of the code worth noting:

- The pipeline queries one source, DuckDuckGo.
- A search that raises ends the pipeline with its message, and `chat_reply` shows that message
  as `Error: <message>`.
- `fact_check_pipeline` does not reject an empty or whitespace-only claim. It always calls the
  language model first.
- The pipeline itself does not check the key. `chat_reply` answers `No key available.` when
  there is none, `use_key` reports `No api key available`, and `save_key` refuses a blank key.
- The key file is read in universal-newlines mode, so a saved key holding `\r` is read back,
  and used, with `\n` in its place.

## Model

| member | source | states |
|---|---|---|
| PyStr.ToLower | text_cleaning.py:23 | the lower-case form of a character is never an ASCII capital; a capital moves up by 32 code points, and every other character is unchanged |
| PyStr.Lower | text_cleaning.py:23 | `lower()` keeps the length and leaves no ASCII capitals; it maps whitespace to whitespace and non-whitespace to non-whitespace, and leaves every character that is not a capital unchanged |
| PyStr.LowerFixpoint | text_cleaning.py:23 | a string is its own lower-case form exactly when it has no capitals |
| PyStr.FirstNonSpace | text_cleaning.py:25 | everything before the returned index is whitespace, and the character at the index is not |
| PyStr.EndNonSpace | text_cleaning.py:25 | everything from the returned index on is whitespace, and the character just before it is not |
| PyStr.Strip | text_cleaning.py:25 | `strip()` returns a slice of its input with no whitespace at either end; only whitespace lies before and after that slice; the result is empty exactly when the input is all whitespace |
| PyStr.StripFixpoint | app.py:12 | `strip()` leaves a string unchanged exactly when the string has no whitespace at either end |
| PyStr.StripIdempotent | image_ocr.py:8 | stripping twice gives the same result as stripping once |
| PyStr.SplitSpace | text_cleaning.py:20 | splitting on `' '` always yields at least one field; a space opens a new field and any other character extends the current one |
| PyStr.SplitJoin | text_cleaning.py:20 | splitting a `' '`-joined non-empty list of space-free items gives the list back |
| PyStr.SplitWord | text_cleaning.py:20 | a string without spaces splits into itself as the one field |
| PyStr.SplitAfterWord | text_cleaning.py:20 | in `a + " " + rest` with a space-free `a`, the first field is `a` and the others are the fields of `rest` |
| PyStr.JoinSplit | text_cleaning.py:20 | joining the `' '`-separated fields of any string gives the string back |
| PyStr.RemoveAll | pipeline.py:57 | `replace(p, "")` never makes a string longer |
| PyStr.RemoveAllAbsent | pipeline.py:57 | a key without any occurrence of the pattern is left unchanged |
| PyStr.RemoveAllLeading | pipeline.py:57 | a leading occurrence is deleted, and the scan continues on the rest |
| PyStr.RemoveAllSkip | pipeline.py:57 | where the pattern does not start at the front, the first character is kept and the scan moves on by one |
| PyStr.RemoveAllAfter | pipeline.py:57 | the first occurrence is deleted wherever it is; the text before it is kept and the scan continues after it |
| PyStr.JoinSpace | text_cleaning.py:20 | `' '.join(xs)`: the items separated by single spaces |
| PyStr.JoinSpaceExtendFirst | text_cleaning.py:20 | putting a character in front of the first item puts it in front of the joined string |
| PyStr.AllWhitespaceConcat | app.py:12-13 | a concatenation is all whitespace exactly when both parts are |
| Seqs.Filter | text_cleaning.py:15 | the filter never yields more elements than the input has |
| Seqs.FilterCounts | text_cleaning.py:15 | every kept element passes; each passing value keeps its multiplicity and each failing value has none |
| Seqs.FilterIsSubsequence | text_cleaning.py:20 | the filtered elements keep their original order |
| Seqs.FilterFixpoint | text_cleaning.py:15 | filtering leaves a sequence unchanged exactly when every element passes |
| Seqs.FilterIdempotent | text_cleaning.py:15 | filtering twice gives the same result as filtering once |
| Seqs.FilterAppend | text_cleaning.py:15 | filtering distributes over concatenation |
| Seqs.FilterNone | text_cleaning.py:20 | when no element passes, the result is empty |
| Seqs.InsertAll | pipeline.py:57 | the keys after dict assignment are the old keys plus every inserted key |
| Seqs.InsertAllLaterWins | pipeline.py:57 | a key holds the value of the last pair that has that key |
| Seqs.InsertAllUntouched | image_ocr.py:25-26 | a key that no pair has keeps its old value, or stays absent |
| Seqs.InsertAllSnoc | image_ocr.py:25-26 | one more pair is one more map update |
| Seqs.Collect | image_ocr.py:16-26 | the filter-map over a listing yields at most one result per element |
| Seqs.CollectSnoc | image_ocr.py:16-26 | one more element adds its result, if it yields one, at the end |
| Seqs.CollectFrom | image_ocr.py:16-26 | every collected result is the result that `f` yields for some element |
| Seqs.CollectLaterWins | image_ocr.py:16-26 | after the collected pairs are inserted, an element's pair is in the map unless a later element yields the same key |
| Seqs.CollectUntouched | image_ocr.py:16-26 | a key that no element yields keeps its old value |
| Seqs.FirstWhere | audio_to_text.py:13-21 | the index of the first element that passes the test, with no passing element before it, or the length when none passes |
| Seqs.FirstWhereAppend | audio_to_text.py:13-21 | elements appended after a passing element do not move the first passing index |
| Seqs.FlattenAppend | pipeline.py:21-25 | the concatenated results of consecutive parts are the concatenation of their concatenated results |
| Seqs.FlattenAt | pipeline.py:24-25 | each element's result sits between the results of the elements before it and those after it |
| Seqs.FlattenSnoc | pipeline.py:24-25 | one more element appends its result |
| TextCleaning.CollapseWhitespace | text_cleaning.py:24 | `re.sub(r'\s+', ' ', s)` never makes a string longer and is empty only for empty input; the first character stays whitespace or non-whitespace as it was |
| TextCleaning.CollapseIsSingleSpaced | text_cleaning.py:24 | after the collapse every whitespace character is a single space with no whitespace next to it, and no capitals are introduced |
| TextCleaning.Normalize | text_cleaning.py:22-25 | the output has no capitals, no whitespace except single spaces between words, no whitespace at either end, and is no longer than the input |
| TextCleaning.CollapseFixpoint | text_cleaning.py:24 | an already single-spaced string is unchanged by the collapse |
| TextCleaning.NormalizeFixpoint | text_cleaning.py:22-25 | `normalize` leaves a string unchanged exactly when the string is already normalized |
| TextCleaning.NormalizeIdempotent | text_cleaning.py:22-25 | `normalize(normalize(t)) == normalize(t)` |
| TextCleaning.CollapseKeepsText | text_cleaning.py:24 | the collapse keeps every non-whitespace character, in order |
| TextCleaning.StripKeepsText | text_cleaning.py:25 | `strip()` keeps every non-whitespace character, in order |
| TextCleaning.NormalizeKeepsText | text_cleaning.py:22-25 | the non-whitespace characters of the output are those of the lower-cased input, in order |
| TextCleaning.SplitWords | text_cleaning.py:24-25 | a string that starts with a non-whitespace character has at least one word |
| TextCleaning.SplitWordsAreWords | text_cleaning.py:24-25 | every word is non-empty and free of whitespace; there are none exactly when the string is all whitespace |
| TextCleaning.CollapseIsJoin | text_cleaning.py:24 | the collapse is an optional leading space, the words joined by single spaces, and an optional trailing space |
| TextCleaning.JoinWordsHasNoEdgeWhitespace | text_cleaning.py:25 | words joined by single spaces have no whitespace at either end, and are non-empty when there is a word |
| TextCleaning.StripSurrounded | text_cleaning.py:25 | stripping whitespace-padded text with no whitespace at its ends gives that text back |
| TextCleaning.NormalizeIsJoinOfWords | text_cleaning.py:22-25 | `normalize(t)` is the words of `t.lower()` joined by single spaces |
| TextCleaning.RemoveSpecialChars | text_cleaning.py:14-15 | every character of the output is an ASCII letter, an ASCII digit or whitespace; each kept character keeps its multiplicity and every other character is gone; the output is no longer than the input |
| TextCleaning.RemoveSpecialCharsIsSubsequence | text_cleaning.py:15 | the output is a subsequence of the input |
| TextCleaning.RemoveSpecialCharsFixpoint | text_cleaning.py:15 | removing special characters twice gives the same result as removing them once; the input is unchanged exactly when it holds only letters, digits and whitespace |
| TextCleaning.RemoveStopwords | text_cleaning.py:17-20 | the tokens whose lower-case form is not a stop word, joined by single spaces |
| TextCleaning.RemoveStopwordsFields | text_cleaning.py:17-20 | the output is empty when every token is a stop word; otherwise its `' '`-separated fields are exactly the tokens whose lower-case form is not a stop word, in token order and with their multiplicity |
| TextCleaning.PreprocessText | text_cleaning.py:27-32 | the result is the stop-word removal applied to the special-character removal of the normalized HTML-stripped text, in that order; the text handed to stop-word removal holds only lower-case letters, digits and spaces |
| WebSearch.Field | web_search.py:8-10 | `r.get(key, "")` |
| WebSearch.FormatResult | web_search.py:8-11 | the line `title: body (Source: href)` for one result |
| WebSearch.VerifyWithDuckDuckGo | web_search.py:4-12 | the query and result count go to the search unchanged; a search that raises makes the call raise with the same message; otherwise there is one line per result, in order, each `title: body (Source: href)`, so no results give an empty list |
| WebSearch.MissingFieldIsEmpty | web_search.py:8-10 | a missing `title`, `body` or `href` renders like an empty one |
| WebSearch.EmptyRecordLine | web_search.py:8-11 | illustration of MissingFieldIsEmpty: a result with none of the three fields renders as `:  (Source: )` |
| WebSearch.OtherKeysIgnored | web_search.py:8-11 | other keys of a result do not affect its line |
| Pipeline.Bullet | pipeline.py:24-25 | `f"• {item}\n"`: the line one entry contributes |
| Pipeline.Header | pipeline.py:22-23 | `f"\n{source}:\n"`: the header one source contributes |
| Pipeline.Bullets | pipeline.py:24-25 | the bullet lines of a source's entries, in order |
| Pipeline.SourceBlock | pipeline.py:22-25 | one source's header followed by its bullet lines |
| Pipeline.Evidence | pipeline.py:21-25 | the blocks of all sources, in order: the string the evidence loop builds |
| Pipeline.BulletAt | pipeline.py:24-25 | each entry is one `• entry` line, after the lines of the entries before it and before the lines of the entries after it |
| Pipeline.SingleSourceEvidence | pipeline.py:19-25 | one source contributes its header and then its bullet lines; a source with no entries contributes only `"\n" + source + ":\n"` |
| Pipeline.CombineEvidence | pipeline.py:21-25 | the nested loop builds, for each source in order, its header followed by one bullet line per entry in order |
| Pipeline.FormatAll | web_search.py:7-11 | one line per search result |
| Pipeline.FactCheckPipeline | pipeline.py:12-32 | the evaluation and the requests made are those of `PipelineRun`: summarize, then search on the prompt, then grade |
| Pipeline.PipelineRun | pipeline.py:12-32 | the run as a value: summarize, search on the prompt with 5 results, check the claim against the evidence, stopping at the first request that raises |
| Pipeline.PipelineCallOrder | pipeline.py:12-32 | the claim is always summarized first, even an empty claim; the search runs on the prompt; a search that raises ends the run with its message after two requests; a search that succeeds leads to exactly three requests; the truthiness check gets the evidence and the original claim, and its answer is returned unchanged; a request that raises ends the run with its message |
| Pipeline.CheckedEvidence | pipeline.py:19-29 | when the search succeeds, the evidence of the truthiness check is the `DuckDuckGo` header followed by one bullet line per search result, in result order |
| Pipeline.UnwrapKeys | pipeline.py:57 | every key loses every occurrence of `module.`; values and order are kept |
| Pipeline.LoadableStateDict | pipeline.py:55-58 | with no key starting with `module.`, the checkpoint is loaded as it is; otherwise the keys are exactly the unwrapped keys |
| Pipeline.UnwrappedValue | pipeline.py:57 | each value is loaded under its unwrapped key unless a later entry unwraps to the same key |
| Pipeline.WrappedKeyUnwrapped | pipeline.py:57 | `module.` + name loads as name when name holds no `module.` |
| Pipeline.CollisionKeepsLater | pipeline.py:56-57 | `module.` + name followed by name loads only name, with the later value |
| Pipeline.NestedWrapperUnwrapped | pipeline.py:57 | `module.` is removed where it occurs after the start of a key too: `outer + "module." + name` loads as `outer + name` |
| Pipeline.InnerWrapperExample | pipeline.py:57 | illustration of NestedWrapperUnwrapped: `features.module.fc` loads as `features.fc` |
| Pipeline.StripWrapper | pipeline.py:57 | `k.replace("module.", "")` on one key |
| Pipeline.HasWrappedKey | pipeline.py:56 | some key of the checkpoint starts with `module.` |
| Pipeline.IsFake | pipeline.py:82 | an image is fake exactly when the predicted class is 0, and real exactly when it is 1 |
| FileSystem.PathJoin | image_ocr.py:18 | an absolute second part replaces the first; an empty first part gives the second part; otherwise the result is the first part and one `/` (unless it already ends in one) followed by the second |
| FileSystem.LastIndexOf | image_ocr.py:23 | the index of the last occurrence, with no occurrence after it, or -1 |
| FileSystem.SplitExtRoot | image_ocr.py:23 | `splitext(p)[0]` is a prefix of `p`; when it is shorter, a `.` follows it and no `.` or `/` follows that dot |
| FileSystem.SplitExtOfStemAndExt | image_ocr.py:23 | `stem.ext` loses exactly `.ext` when the stem has a non-dot character |
| FileSystem.SplitExtOfHiddenName | image_ocr.py:23 | a name whose dots all lead it has no extension |
| FileSystem.OutputName | image_ocr.py:23-24 | the output name is the root followed by `.txt` |
| FileSystem.OutputPath | image_ocr.py:23-24 | `os.path.join(output_folder, base_name + ".txt")` for an input name: it always ends in `.txt`, and it lies under the output folder unless the output name is absolute |
| FileSystem.SameStemSameOutput | image_ocr.py:23-24 | two names with the same stem (no `/`, not all dots) and any two extensions (no `.` or `/`) get the same output name, `stem.txt` |
| FileSystem.OutputFolder.constructor | image_ocr.py:14 | the folder starts with the given files |
| FileSystem.OutputFolder.Write | image_ocr.py:25-26 | writing replaces one file whole, and no other file changes |
| FileSystem.AfterWrites | image_ocr.py:24-26 | after a series of writes, the paths are the old ones plus every path written |
| ImageOcr.OcrImage | image_ocr.py:5-11 | `None` exactly when the engine raised; otherwise the engine's text stripped, which has no whitespace at either end and is empty exactly when the engine's text was all whitespace |
| ImageOcr.IsImageName | image_ocr.py:17 | the lower-cased name ends with `.png`, `.jpg`, `.jpeg` or `.tiff` |
| ImageOcr.ImageNameIgnoresCase | image_ocr.py:17 | a name is selected exactly when its lower-case form is |
| ImageOcr.OcrWrite | image_ocr.py:17-26 | a listing entry writes exactly when it is an image and its OCR text is neither `None` nor empty; it writes that text to `join(output_folder, stem + ".txt")` |
| ImageOcr.OcrWrites | image_ocr.py:16-26 | the writes of `process_folder`, one per written entry, in listing order |
| ImageOcr.ProcessFolder | image_ocr.py:13-28 | the output folder ends up holding the old files overwritten by the writes of `OcrWrites`, in listing order |
| ImageOcr.OcrWritesSnoc | image_ocr.py:16-26 | one more listing entry adds its write, if any, after the others |
| ImageOcr.OcrStep | image_ocr.py:16-26 | the folder after one more entry is the folder before it, updated by that entry's write if it has one |
| ImageOcr.OcrWritesAreImages | image_ocr.py:17-26 | every written file is for an image name, at its output path, and holds non-empty stripped text |
| ImageOcr.OcrLaterWins | image_ocr.py:16-26 | an entry's output holds its OCR text unless a later written entry has the same output path |
| ImageOcr.OcrUntouched | image_ocr.py:16-26 | a path that no image entry targets is not changed |
| ImageOcr.OcrSkipsEmpty | image_ocr.py:17-22 | a non-image, or an image whose OCR raised or found only whitespace, writes nothing |
| ImageOcr.SameStemLaterOverwrites | image_ocr.py:16-26 | two images with the same stem and any two extensions target the same output file, and the text of the later one is what remains |
| ImageOcr.HiddenImageOutputName | image_ocr.py:23-24 | a hidden name such as `.png` has no extension, so its output is the whole name followed by `.txt` |
| AudioToText.TranscribeAudio | audio_to_text.py:4-8 | exactly the `"text"` field of the transcription; a transcription that raises or lacks that field raises |
| AudioToText.IsAudioName | audio_to_text.py:14 | the lower-cased name ends with `.mp3`, `.wav` or `.m4a` |
| AudioToText.AudioNameIgnoresCase | audio_to_text.py:14 | a name is selected exactly when its lower-case form is |
| AudioToText.FirstFailure | audio_to_text.py:13-21 | the first selected entry whose transcription raises; no earlier entry raises |
| AudioToText.AudioWrite | audio_to_text.py:14-21 | every audio entry whose transcription succeeds writes its transcript to `join(output_folder, stem + ".txt")`, with no skip for empty text |
| AudioToText.WritesOf | audio_to_text.py:13-21 | the writes of the given entries that have one, in order |
| AudioToText.AudioWrites | audio_to_text.py:13-21 | the writes of `process_audio_folder`: those of the entries before the first failure |
| AudioToText.AudioError | audio_to_text.py:13-21 | the batch raises exactly when some selected entry's transcription raises |
| AudioToText.AudioWriteSnoc | audio_to_text.py:13-21 | one more entry adds its write, if any, after the others |
| AudioToText.AudioStep | audio_to_text.py:13-21 | the folder after one more entry is the folder before it, updated by that entry's write if it has one |
| AudioToText.ProcessAudioFolder | audio_to_text.py:10-23 | the output folder ends up holding the writes made before the first failure, in listing order, and the batch reports that failure's message |
| AudioToText.AudioWritesEveryTranscript | audio_to_text.py:13-21 | every audio entry before the first failure has its transcript at its output path, unless a later entry writes the same path |
| AudioToText.AudioAbortIgnoresRest | audio_to_text.py:13-21 | after an entry has raised, later entries change neither the files nor the error |
| AudioToText.AudioUntouched | audio_to_text.py:13-21 | a path that no audio entry targets is not changed |
| AudioToText.EmptyTranscriptWritten | audio_to_text.py:16-21 | an empty transcript is still written, as an empty file |
| App.ReadText | app.py:12 | `read_text` in universal-newlines mode: `"\r\n"` and a lone `\r` each come back as one `\n` (ReadTextCrLf, ReadTextLoneCarriageReturn), everything else unchanged (ReadTextCarriageReturns); the read is never longer than the file |
| App.ReadTextCrLf | app.py:12 | a `"\r\n"` pair after text without `\r` is read as a single `\n` |
| App.ReadTextCarriageReturns | app.py:12 | no `\r` survives the read, and a text without `\r` reads back unchanged |
| App.ReadTextWhitespace | app.py:12 | the text read is all whitespace exactly when the file's text is |
| App.ReadTextEdges | app.py:12 | a non-whitespace first or last character of the file is also the first or last character read |
| App.ReadTextLoneCarriageReturn | app.py:12 | a lone `\r` (not followed by `\n`) after text without `\r` is read as `\n` |
| App.ReadTextKeepsStripped | app.py:12 | a non-empty stripped text is read back non-empty and stripped |
| App.StoredKey | app.py:9-16 | no key when the file is missing, cannot be read, or holds only whitespace; otherwise the stripped text read from the file, which is non-empty |
| App.StoredKeyOfStripped | app.py:9-16 | a file holding a non-empty stripped key yields that key as read |
| App.CleanInput | app.py:31 | `(key or "").strip()` has no whitespace at either end, and is empty exactly when the input is `None` or all whitespace |
| App.SavedKeyReadsBack | app.py:31-35 | a saved non-blank key is read back as `read_text` returns it, and unchanged when it holds no `\r` |
| App.CarriageReturnReadAsNewline | app.py:12 | illustration of ReadTextLoneCarriageReturn: the key `ab\rcd` is read back as `ab\ncd` |
| App.ChosenKey | app.py:57 | a stored key always wins over the text box; otherwise the stripped text box; no key exactly when neither is present |
| App.ReplyText | app.py:60-63 | the pipeline's answer, or `Error: ` followed by the exception's message |
| App.KeyStore.constructor | app.py:6 | the store starts with the given file state |
| App.KeyStore.GetApiKey | app.py:9-16 | `get_api_key()` on the store's current file state: a key it returns is never empty and has no whitespace at either end |
| App.KeyStore.LoadKey | app.py:19-27 | the stored key and `Loaded API key from file api_key.txt`, or the empty value and the "No api_key.txt found" status |
| App.KeyStore.SaveKey | app.py:30-40 | a blank key gives `Please enter your key here.` and changes nothing; otherwise the file holds exactly the stripped key as written, and `API key saved to api_key.txt` is returned |
| App.KeyStore.UseKey | app.py:43-53 | a stored key is kept and `Using key from api_key.txt` is returned; without one, blank input gives `No api key available` and stores nothing, and other input is saved with the save status |
| App.KeyStore.ChatReply | app.py:56-63 | with no key, `No key available.` and no request at all; otherwise the pipeline runs with the chosen key, and its answer or `Error: <message>` is returned |
| App.SavedKeyUsedForChat | app.py:35-57 | after a non-blank key is saved, the chat uses it as read back (`\r` turned into `\n`), whatever is typed in the text box |
| App.CheckDeepfake | app.py:66-70 | no path or an empty path gives `False` without running the detector; otherwise the detector's result unchanged |

## Left out

- The HTML stripper, the tokenizer and the NLTK English stop-word list are parameters. The `nltk.download` calls made at import time (text_cleaning.py:6-8) are left out.
- PyStr.Lower: `lower()` is modelled on ASCII capitals only; the Unicode case mapping of other letters is not modelled. For the extension filters this is exact, because the only non-ASCII character whose lower-case form is ASCII is KELVIN SIGN (to `k`), and no listed extension contains `k`.
- TextCleaning.Normalize: its contract is stated over ASCII case, following `PyStr.Lower`.
- The language model (the Groq client in llm.py, with its prompts and sampling parameters) is two parameters that may fail. llm.py is not part of this model.
- The DuckDuckGo search, tesseract OCR, whisper transcription and the deepfake detector are parameters. `deepfake_detection` (app.py:69) is not defined in app.py or in any module it imports; it is an opaque function here.
- `print` output of the pipeline and of the batch converters is left out, as is the `makedirs` call (the output folder simply exists).
- The wrappers `audio_to_text` and `image_to_text` (pipeline.py:35-42) only forward to `transcribe_audio` and `ocr_image`, which are modelled as `AudioToText.TranscribeAudio` and `ImageOcr.OcrImage`.
- The tensor work of `xceptionNet_inference` (pipeline.py:47-80) is left out: model creation, image transforms, softmax and argmax. So is the floating-point confidence text (pipeline.py:83-85). Only the checkpoint-key rewrite and the class-index rule are modelled.
- Pipeline.LoadableStateDict: the insertion order of the rewritten dictionary is not modelled; the result is a map.
- The checkpoint is given as its sequence of (key, value) entries, in the dictionary's order.
- The training scripts (xceptionNet_train.py, resnet_train.py) are floating-point numerics over GPU libraries and are left out.
- The Gradio layout and event wiring (app.py:73-109) are left out. So is the best-effort `os.chmod` (app.py:36-39), which cannot change the stored key.
- App.KeyStore.SaveKey: a failing write of `api_key.txt` is not modelled; the write always succeeds. The same holds for `OutputFolder.Write`.
- App.KeyStore.SaveKey: `write_text` is modelled as on POSIX, where text is written with no newline translation; the UTF-8 encoding and decoding of the key are taken as exact inverses (a string that cannot be encoded, such as one holding a lone surrogate, is not modelled).
- App.KeyStore.ChatReply: the chat history argument is ignored by the code, and it is not a parameter here.
- The directory listing is a parameter in a fixed order; `os.listdir` gives no order guarantee.
- The transcription result is modelled as a map from field names to strings; its `segments` list is left out.
- test_main.py exercises `main.verify_claim`; `main` is not part of this model.
