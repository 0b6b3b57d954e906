/**
 * Batch transcription: every audio file in a folder listing is transcribed and the transcript
 * is written to `<stem>.txt` in the output folder, even when it is empty. A transcription that
 * raises ends the whole batch; the files written before it stay written.
 */
module AudioToText {
  import opened Wrappers
  import opened PyStr
  import opened Seqs
  import opened FileSystem

  /**
   * `whisper.load_model("base").transcribe(path)`, which may raise. Its result is the
   * transcription dictionary; only its string fields are modelled.
   */
  type Transcriber = string -> Result<map<string, string>, string>

  /** The suffixes of the names `process_audio_folder` selects, compared against the lower-cased name. */
  const AudioExtensions: seq<string> := [".mp3", ".wav", ".m4a"]

  /** The default `output_folder`. */
  const DefaultOutputFolder: string := "transcriptions"

  /** The message of the `KeyError` raised by `result["text"]` when the key is missing. */
  const MissingTextError: string := "'text'"

  /**
   * `transcribe_audio(file_path)`: the `"text"` field of the transcription, exactly as it is.
   * Raises when transcription raises or the field is missing.
   */
  function TranscribeAudio(filePath: string, transcribe: Transcriber): (r: Result<string, string>)
    ensures transcribe(filePath).Failure? ==> r == Failure(transcribe(filePath).error)
    ensures transcribe(filePath).Success? && "text" in transcribe(filePath).value ==>
              r == Success(transcribe(filePath).value["text"])
    ensures transcribe(filePath).Success? && "text" !in transcribe(filePath).value ==>
              r == Failure(MissingTextError)
  {
    match transcribe(filePath)
    case Failure(e) => Failure(e)
    case Success(result) => if "text" in result then Success(result["text"]) else Failure(MissingTextError)
  }

  /** `filename.lower().endswith((".mp3", ".wav", ".m4a"))`. */
  predicate IsAudioName(filename: string) {
    EndsWithAny(Lower(filename), AudioExtensions)
  }

  /** The selection ignores case: a name is selected exactly when its lower-case form is. */
  lemma AudioNameIgnoresCase(filename: string)
    ensures IsAudioName(Lower(filename)) <==> IsAudioName(filename)
  {
    LowerFixpoint(Lower(filename));
  }

  /** The listing entry stops the batch: it is selected and its transcription raises. */
  predicate Fails(folderPath: string, filename: string, transcribe: Transcriber) {
    IsAudioName(filename) && TranscribeAudio(PathJoin(folderPath, filename), transcribe).Failure?
  }

  /** The index of the first entry whose transcription raises, or `|listing|` when none does. */
  function FirstFailure(folderPath: string, listing: seq<string>, transcribe: Transcriber): (k: nat)
    ensures k <= |listing|
    ensures forall j :: 0 <= j < k ==> !Fails(folderPath, listing[j], transcribe)
    ensures k < |listing| ==> Fails(folderPath, listing[k], transcribe)
  {
    FirstWhere(name => Fails(folderPath, name, transcribe), listing)
  }

  /** The file written for one listing entry: for every audio name whose transcription succeeds. */
  function AudioWrite(folderPath: string, outputFolder: string, filename: string, transcribe: Transcriber)
    : (w: Option<(string, string)>)
    ensures w.Some? <==> IsAudioName(filename) && TranscribeAudio(PathJoin(folderPath, filename), transcribe).Success?
    ensures w.Some? ==> w.value == (OutputPath(outputFolder, filename),
                                    TranscribeAudio(PathJoin(folderPath, filename), transcribe).value)
  {
    if !IsAudioName(filename) then None
    else
      match TranscribeAudio(PathJoin(folderPath, filename), transcribe)
      case Failure(_) => None
      case Success(transcript) => Some((OutputPath(outputFolder, filename), transcript))
  }

  /** The writes for the entries of `entries` that have one, in order. */
  function WritesOf(folderPath: string, outputFolder: string, entries: seq<string>, transcribe: Transcriber)
    : seq<(string, string)>
  {
    Collect(name => AudioWrite(folderPath, outputFolder, name, transcribe), entries)
  }

  /** The files written by `process_audio_folder`, in listing order, up to the first failure. */
  function AudioWrites(folderPath: string, outputFolder: string, listing: seq<string>, transcribe: Transcriber)
    : seq<(string, string)>
  {
    WritesOf(folderPath, outputFolder, listing[..FirstFailure(folderPath, listing, transcribe)], transcribe)
  }

  /** The message the batch raises with, if a transcription raised. */
  function AudioError(folderPath: string, listing: seq<string>, transcribe: Transcriber): (e: Option<string>)
    ensures e.None? <==> forall j :: 0 <= j < |listing| ==> !Fails(folderPath, listing[j], transcribe)
  {
    var stop := FirstFailure(folderPath, listing, transcribe);
    if stop < |listing| then Some(TranscribeAudio(PathJoin(folderPath, listing[stop]), transcribe).error)
    else None
  }

  /** One more entry after entries that all succeeded adds its write, if it has one. */
  lemma AudioWriteSnoc(folderPath: string, outputFolder: string, listing: seq<string>,
                       filename: string, transcribe: Transcriber)
    ensures var w := AudioWrite(folderPath, outputFolder, filename, transcribe);
      WritesOf(folderPath, outputFolder, listing + [filename], transcribe)
      == WritesOf(folderPath, outputFolder, listing, transcribe) + (if w.Some? then [w.value] else [])
  {
    CollectSnoc(name => AudioWrite(folderPath, outputFolder, name, transcribe), listing, filename);
  }

  /**
   * `process_audio_folder(folder_path, output_folder)` over the folder's listing, in listing
   * order. Returns the message of the exception that ended the batch, if any; the output folder
   * holds exactly the writes made before it.
   */
  method ProcessAudioFolder(folderPath: string, outputFolder: string, listing: seq<string>,
                            transcribe: Transcriber, out: OutputFolder)
    returns (error: Option<string>)
    modifies out
    ensures out.files == AfterWrites(old(out.files), AudioWrites(folderPath, outputFolder, listing, transcribe))
    ensures error == AudioError(folderPath, listing, transcribe)
  {
    ghost var stop := FirstFailure(folderPath, listing, transcribe);
    for i := 0 to |listing|
      invariant i <= stop
      invariant out.files == AfterWrites(old(out.files), WritesOf(folderPath, outputFolder, listing[..i], transcribe))
    {
      ghost var written := AudioWrite(folderPath, outputFolder, listing[i], transcribe);
      AudioStep(old(out.files), folderPath, outputFolder, listing, i, transcribe);
      var filename := listing[i];
      if IsAudioName(filename) {
        var filePath := PathJoin(folderPath, filename);
        var transcript := TranscribeAudio(filePath, transcribe);
        if transcript.Failure? {
          assert Fails(folderPath, listing[i], transcribe);
          assert i == stop;
          return Some(transcript.error);
        }
        var baseName := SplitExtRoot(filename);
        var outputFile := PathJoin(outputFolder, baseName + ".txt");
        assert written == Some((outputFile, transcript.value));
        out.Write(outputFile, transcript.value);
      } else {
        assert written.None?;
      }
    }
    assert listing[..|listing|] == listing;
    return None;
  }

  /** The folder after the first `i + 1` entries: the folder after the first `i`, plus entry `i`'s write if it has one. */
  lemma AudioStep(files: map<string, string>, folderPath: string, outputFolder: string,
                  listing: seq<string>, i: nat, transcribe: Transcriber)
    requires i < |listing|
    ensures var w := AudioWrite(folderPath, outputFolder, listing[i], transcribe);
      var before := AfterWrites(files, WritesOf(folderPath, outputFolder, listing[..i], transcribe));
      AfterWrites(files, WritesOf(folderPath, outputFolder, listing[..i + 1], transcribe))
      == if w.Some? then before[w.value.0 := w.value.1] else before
  {
    var w := AudioWrite(folderPath, outputFolder, listing[i], transcribe);
    assert listing[..i + 1] == listing[..i] + [listing[i]];
    AudioWriteSnoc(folderPath, outputFolder, listing[..i], listing[i], transcribe);
    if w.Some? {
      InsertAllSnoc(files, WritesOf(folderPath, outputFolder, listing[..i], transcribe), w.value);
    }
  }

  // ---------------------------------------------------------------------------
  // Properties of a run
  // ---------------------------------------------------------------------------

  /**
   * There is no skip rule: every audio entry before the first failure has its transcript at its
   * output path, even an empty transcript, unless a later entry before the failure writes the
   * same path.
   */
  lemma AudioWritesEveryTranscript(files: map<string, string>, folderPath: string, outputFolder: string,
                                   listing: seq<string>, transcribe: Transcriber, i: nat)
    requires i < FirstFailure(folderPath, listing, transcribe) && IsAudioName(listing[i])
    requires forall j :: i < j < FirstFailure(folderPath, listing, transcribe) && IsAudioName(listing[j]) ==>
               OutputPath(outputFolder, listing[j]) != OutputPath(outputFolder, listing[i])
    ensures var result := AfterWrites(files, AudioWrites(folderPath, outputFolder, listing, transcribe));
      && OutputPath(outputFolder, listing[i]) in result
      && result[OutputPath(outputFolder, listing[i])] == TranscribeAudio(PathJoin(folderPath, listing[i]), transcribe).value
  {
    var stop := FirstFailure(folderPath, listing, transcribe);
    var prefix := listing[..stop];
    assert prefix[i] == listing[i];
    forall j | i < j < |prefix| && AudioWrite(folderPath, outputFolder, prefix[j], transcribe).Some?
      ensures OutputPath(outputFolder, prefix[j]) != OutputPath(outputFolder, listing[i])
    {
      assert prefix[j] == listing[j];
    }
    CollectLaterWins(files, name => AudioWrite(folderPath, outputFolder, name, transcribe), prefix, i);
  }

  /** Once an entry has raised, later entries change neither the files written nor the error. */
  lemma AudioAbortIgnoresRest(folderPath: string, outputFolder: string, listing: seq<string>,
                              rest: seq<string>, transcribe: Transcriber)
    requires AudioError(folderPath, listing, transcribe).Some?
    ensures AudioWrites(folderPath, outputFolder, listing + rest, transcribe)
         == AudioWrites(folderPath, outputFolder, listing, transcribe)
    ensures AudioError(folderPath, listing + rest, transcribe) == AudioError(folderPath, listing, transcribe)
  {
    var k := FirstFailure(folderPath, listing, transcribe);
    FirstWhereAppend(name => Fails(folderPath, name, transcribe), listing, rest);
    assert (listing + rest)[k] == listing[k];
    assert (listing + rest)[..k] == listing[..k];
  }

  /** A path that no audio entry targets keeps its old contents, or stays absent. */
  lemma AudioUntouched(files: map<string, string>, folderPath: string, outputFolder: string,
                       listing: seq<string>, transcribe: Transcriber, path: string)
    requires forall i :: 0 <= i < |listing| && IsAudioName(listing[i]) ==> OutputPath(outputFolder, listing[i]) != path
    ensures var result := AfterWrites(files, AudioWrites(folderPath, outputFolder, listing, transcribe));
      && (path in result <==> path in files)
      && (path in files ==> result[path] == files[path])
  {
    var prefix := listing[..FirstFailure(folderPath, listing, transcribe)];
    forall i | 0 <= i < |prefix| && AudioWrite(folderPath, outputFolder, prefix[i], transcribe).Some?
      ensures AudioWrite(folderPath, outputFolder, prefix[i], transcribe).value.0 != path
    {
      assert prefix[i] == listing[i];
    }
    CollectUntouched(files, name => AudioWrite(folderPath, outputFolder, name, transcribe), prefix, path);
  }

  /** Unlike OCR, an empty transcript is still written, as an empty file. */
  lemma EmptyTranscriptWritten(files: map<string, string>, folderPath: string, outputFolder: string,
                               filename: string, transcribe: Transcriber)
    requires IsAudioName(filename)
    requires TranscribeAudio(PathJoin(folderPath, filename), transcribe) == Success("")
    ensures AfterWrites(files, AudioWrites(folderPath, outputFolder, [filename], transcribe))
         == files[OutputPath(outputFolder, filename) := ""]
  {
    var w := (OutputPath(outputFolder, filename), "");
    assert FirstFailure(folderPath, [filename], transcribe) == 1;
    assert [filename][..1] == [] + [filename];
    AudioWriteSnoc(folderPath, outputFolder, [], filename, transcribe);
    assert AudioWrites(folderPath, outputFolder, [filename], transcribe) == [] + [w];
    InsertAllSnoc(files, [], w);
  }
}
