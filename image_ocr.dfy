/**
 * Batch OCR: every image in a folder listing is read by an OCR engine and its stripped text is
 * written to `<stem>.txt` in the output folder, unless the OCR failed or found no text.
 */
module ImageOcr {
  import opened Wrappers
  import opened PyStr
  import opened Seqs
  import opened FileSystem

  /** The OCR engine: `pytesseract.image_to_string(Image.open(path))`, which may raise. */
  type OcrEngine = string -> Result<string, string>

  /** The suffixes of the names `process_folder` selects, compared against the lower-cased name. */
  const ImageExtensions: seq<string> := [".png", ".jpg", ".jpeg", ".tiff"]

  /** The default `output_folder`. */
  const DefaultOutputFolder: string := "ocr_results"

  /**
   * `ocr_image(image_path)`: the engine's text without leading and trailing whitespace, or
   * `None` when opening or reading the image raised.
   */
  function OcrImage(imagePath: string, engine: OcrEngine): (text: Option<string>)
    ensures text.None? <==> engine(imagePath).Failure?
    ensures text.Some? ==> text.value == Strip(engine(imagePath).value)
    ensures text.Some? ==> NoEdgeWhitespace(text.value) && Strip(text.value) == text.value
    ensures text.Some? ==> (text.value == [] <==> AllWhitespace(engine(imagePath).value))
  {
    match engine(imagePath)
    case Failure(_) => None
    case Success(raw) =>
      StripIdempotent(raw);
      Some(Strip(raw))
  }

  /** `filename.lower().endswith((".png", ".jpg", ".jpeg", ".tiff"))`. */
  predicate IsImageName(filename: string) {
    EndsWithAny(Lower(filename), ImageExtensions)
  }

  /** The selection ignores case: a name is selected exactly when its lower-case form is. */
  lemma ImageNameIgnoresCase(filename: string)
    ensures IsImageName(Lower(filename)) <==> IsImageName(filename)
  {
    LowerFixpoint(Lower(filename));
  }

  /**
   * The file written for one listing entry, if any: only for an image whose OCR text is
   * neither `None` nor empty.
   */
  function OcrWrite(folderPath: string, outputFolder: string, filename: string, engine: OcrEngine)
    : (w: Option<(string, string)>)
    ensures w.Some? <==> IsImageName(filename) && OcrImage(PathJoin(folderPath, filename), engine).Some?
                          && OcrImage(PathJoin(folderPath, filename), engine).value != []
    ensures w.Some? ==> w.value == (OutputPath(outputFolder, filename),
                                    OcrImage(PathJoin(folderPath, filename), engine).value)
  {
    if !IsImageName(filename) then None
    else
      match OcrImage(PathJoin(folderPath, filename), engine)
      case None => None
      case Some(text) => if text != [] then Some((OutputPath(outputFolder, filename), text)) else None
  }

  /** The files written by `process_folder` for the listing, in listing order. */
  function OcrWrites(folderPath: string, outputFolder: string, listing: seq<string>, engine: OcrEngine)
    : seq<(string, string)>
  {
    Collect(name => OcrWrite(folderPath, outputFolder, name, engine), listing)
  }

  /**
   * `process_folder(folder_path, output_folder)` over the folder's listing, in listing order:
   * the output folder afterwards holds exactly the writes of `OcrWrites`, applied in order.
   */
  method ProcessFolder(folderPath: string, outputFolder: string, listing: seq<string>,
                       engine: OcrEngine, out: OutputFolder)
    modifies out
    ensures out.files == AfterWrites(old(out.files), OcrWrites(folderPath, outputFolder, listing, engine))
  {
    for i := 0 to |listing|
      invariant out.files == AfterWrites(old(out.files), OcrWrites(folderPath, outputFolder, listing[..i], engine))
    {
      ghost var written := OcrWrite(folderPath, outputFolder, listing[i], engine);
      OcrStep(old(out.files), folderPath, outputFolder, listing, i, engine);
      var filename := listing[i];
      if IsImageName(filename) {
        var imagePath := PathJoin(folderPath, filename);
        var extractedText := OcrImage(imagePath, engine);
        if extractedText.Some? && extractedText.value != [] {
          var baseName := SplitExtRoot(filename);
          var outputFile := PathJoin(outputFolder, baseName + ".txt");
          assert written == Some((outputFile, extractedText.value));
          out.Write(outputFile, extractedText.value);
        } else {
          assert written.None?;
        }
      } else {
        assert written.None?;
      }
    }
    assert listing[..|listing|] == listing;
  }

  /** The folder after the first `i + 1` entries: the folder after the first `i`, plus entry `i`'s write if it has one. */
  lemma OcrStep(files: map<string, string>, folderPath: string, outputFolder: string,
                listing: seq<string>, i: nat, engine: OcrEngine)
    requires i < |listing|
    ensures var w := OcrWrite(folderPath, outputFolder, listing[i], engine);
      var before := AfterWrites(files, OcrWrites(folderPath, outputFolder, listing[..i], engine));
      AfterWrites(files, OcrWrites(folderPath, outputFolder, listing[..i + 1], engine))
      == if w.Some? then before[w.value.0 := w.value.1] else before
  {
    var w := OcrWrite(folderPath, outputFolder, listing[i], engine);
    assert listing[..i + 1] == listing[..i] + [listing[i]];
    OcrWritesSnoc(folderPath, outputFolder, listing[..i], listing[i], engine);
    if w.Some? {
      InsertAllSnoc(files, OcrWrites(folderPath, outputFolder, listing[..i], engine), w.value);
    }
  }

  /** One more listing entry adds its write, if it has one, after the earlier ones. */
  lemma OcrWritesSnoc(folderPath: string, outputFolder: string, listing: seq<string>,
                      filename: string, engine: OcrEngine)
    ensures var w := OcrWrite(folderPath, outputFolder, filename, engine);
      OcrWrites(folderPath, outputFolder, listing + [filename], engine)
      == OcrWrites(folderPath, outputFolder, listing, engine) + (if w.Some? then [w.value] else [])
  {
    CollectSnoc(name => OcrWrite(folderPath, outputFolder, name, engine), listing, filename);
  }

  // ---------------------------------------------------------------------------
  // Properties of a run
  // ---------------------------------------------------------------------------

  /** Every file written is for an image name, at its output path, and holds non-empty stripped text. */
  lemma OcrWritesAreImages(folderPath: string, outputFolder: string,
                           listing: seq<string>, engine: OcrEngine, k: nat)
    requires k < |OcrWrites(folderPath, outputFolder, listing, engine)|
    ensures var w := OcrWrites(folderPath, outputFolder, listing, engine)[k];
      exists i :: 0 <= i < |listing| && IsImageName(listing[i])
        && w.0 == OutputPath(outputFolder, listing[i])
        && w.1 != [] && NoEdgeWhitespace(w.1)
  {
    CollectFrom(name => OcrWrite(folderPath, outputFolder, name, engine), listing, k);
  }

  /**
   * The output for an entry holds its OCR text unless a later written entry has the same output
   * path (for example `a.png` then `a.JPG`), in which case the later text wins.
   */
  lemma OcrLaterWins(files: map<string, string>, folderPath: string, outputFolder: string,
                     listing: seq<string>, engine: OcrEngine, i: nat)
    requires i < |listing|
    requires OcrWrite(folderPath, outputFolder, listing[i], engine).Some?
    requires forall j :: i < j < |listing| && OcrWrite(folderPath, outputFolder, listing[j], engine).Some? ==>
               OutputPath(outputFolder, listing[j]) != OutputPath(outputFolder, listing[i])
    ensures var result := AfterWrites(files, OcrWrites(folderPath, outputFolder, listing, engine));
      && OutputPath(outputFolder, listing[i]) in result
      && result[OutputPath(outputFolder, listing[i])] == OcrImage(PathJoin(folderPath, listing[i]), engine).value
  {
    CollectLaterWins(files, name => OcrWrite(folderPath, outputFolder, name, engine), listing, i);
  }

  /** A path that no image entry targets keeps its old contents, or stays absent. */
  lemma OcrUntouched(files: map<string, string>, folderPath: string, outputFolder: string,
                     listing: seq<string>, engine: OcrEngine, path: string)
    requires forall i :: 0 <= i < |listing| && IsImageName(listing[i]) ==> OutputPath(outputFolder, listing[i]) != path
    ensures var result := AfterWrites(files, OcrWrites(folderPath, outputFolder, listing, engine));
      && (path in result <==> path in files)
      && (path in files ==> result[path] == files[path])
  {
    CollectUntouched(files, name => OcrWrite(folderPath, outputFolder, name, engine), listing, path);
  }

  /** A name that is not an image, or an image whose OCR raised or found only whitespace, writes nothing. */
  lemma OcrSkipsEmpty(folderPath: string, outputFolder: string, listing: seq<string>,
                      filename: string, engine: OcrEngine)
    requires var text := OcrImage(PathJoin(folderPath, filename), engine);
      !IsImageName(filename) || text.None? || text.value == []
    ensures OcrWrites(folderPath, outputFolder, listing + [filename], engine)
         == OcrWrites(folderPath, outputFolder, listing, engine)
  {
    CollectSnoc(name => OcrWrite(folderPath, outputFolder, name, engine), listing, filename);
  }

  /**
   * Two written images with the same stem, e.g. `a.png` and then `a.JPG`: both target
   * `<stem>.txt`, and the second one's text is what the folder holds.
   */
  lemma SameStemLaterOverwrites(files: map<string, string>, folderPath: string, outputFolder: string,
                                stem: string, ext1: string, ext2: string, engine: OcrEngine)
    requires '/' !in stem && !AllDots(stem)
    requires '.' !in ext1 && '/' !in ext1 && '.' !in ext2 && '/' !in ext2
    requires OcrWrite(folderPath, outputFolder, stem + "." + ext1, engine).Some?
    requires OcrWrite(folderPath, outputFolder, stem + "." + ext2, engine).Some?
    ensures var listing := [stem + "." + ext1, stem + "." + ext2];
      var result := AfterWrites(files, OcrWrites(folderPath, outputFolder, listing, engine));
      && OutputPath(outputFolder, listing[0]) == OutputPath(outputFolder, listing[1])
      == PathJoin(outputFolder, stem + ".txt")
      && result[PathJoin(outputFolder, stem + ".txt")]
         == OcrImage(PathJoin(folderPath, stem + "." + ext2), engine).value
  {
    var listing := [stem + "." + ext1, stem + "." + ext2];
    SameStemSameOutput(stem, ext1, ext2);
    OcrLaterWins(files, folderPath, outputFolder, listing, engine, 1);
  }

  /** A hidden image such as `.png` has no extension, so its output name keeps the whole name. */
  lemma HiddenImageOutputName(ext: string)
    requires '.' !in ext && '/' !in ext
    ensures OutputName("." + ext) == "." + ext + ".txt"
  {
    SplitExtOfHiddenName(".", ext);
  }
}
