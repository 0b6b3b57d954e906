/**
 * The path and output-folder operations of the batch converters: `os.path.join`,
 * `os.path.splitext` (POSIX rules), the `.txt` output name, and an output folder whose files are
 * written whole.
 */
module FileSystem {
  import opened PyStr
  import opened Seqs

  // ---------------------------------------------------------------------------
  // os.path.join
  // ---------------------------------------------------------------------------

  /** `os.path.join(a, b)` on POSIX: an absolute `b` replaces `a`; otherwise one `/` separates them. */
  function PathJoin(a: string, b: string): (r: string)
    ensures StartsWith(b, "/") ==> r == b
    ensures a == [] ==> r == b
    ensures !StartsWith(b, "/") ==> EndsWith(r, b) && StartsWith(r, a)
    ensures !StartsWith(b, "/") && a != [] ==> r[..|r| - |b|] == (if a[|a| - 1] == '/' then a else a + "/")
  {
    if StartsWith(b, "/") then b
    else if a == [] || a[|a| - 1] == '/' then a + b
    else a + "/" + b
  }

  // ---------------------------------------------------------------------------
  // os.path.splitext
  // ---------------------------------------------------------------------------

  /** The index of the last `c` in `s`, or -1 when `c` does not occur. */
  function LastIndexOf(s: string, c: char): (r: int)
    ensures -1 <= r < |s|
    ensures r >= 0 ==> s[r] == c
    ensures forall k :: r < k < |s| ==> s[k] != c
  {
    if s == [] then -1
    else if s[|s| - 1] == c then |s| - 1
    else LastIndexOf(s[..|s| - 1], c)
  }

  predicate AllDots(s: string) {
    forall k :: 0 <= k < |s| ==> s[k] == '.'
  }

  /** Some character of `p[from..to]` is not a dot. */
  predicate NotAllDots(p: string, from: int, to: int) {
    exists k :: 0 <= from <= k < to <= |p| && p[k] != '.'
  }

  /**
   * `os.path.splitext(p)[0]`: `p` without its extension. The extension starts at the last `.`
   * of the last path component, provided some character before that dot in the component is not
   * a dot; otherwise there is no extension and the whole of `p` is returned.
   */
  function SplitExtRoot(p: string): (root: string)
    ensures StartsWith(p, root)
    ensures root != p ==> 0 < |root| < |p| && p[|root|] == '.'
    ensures forall k :: |root| < k < |p| ==> p[k] != '.' && p[k] != '/'
  {
    var sep := LastIndexOf(p, '/');
    var dot := LastIndexOf(p, '.');
    if dot > sep && NotAllDots(p, sep + 1, dot) then p[..dot] else p
  }

  /** A name made of a stem with a non-dot character and one extension loses exactly the extension. */
  lemma SplitExtOfStemAndExt(stem: string, ext: string)
    requires '/' !in stem && !AllDots(stem)
    requires '.' !in ext && '/' !in ext
    ensures SplitExtRoot(stem + "." + ext) == stem
  {
    var p := stem + "." + ext;
    var dot := LastIndexOf(p, '.');
    assert p[|stem|] == '.';
    assert dot == |stem| by {
      assert forall k :: |stem| < k < |p| ==> p[k] == ext[k - |stem| - 1];
    }
    var sep := LastIndexOf(p, '/');
    assert sep == -1;
    assert p[sep + 1..dot] == stem;
  }

  /** A name whose only dots lead it (a hidden file) has no extension. */
  lemma SplitExtOfHiddenName(dots: string, rest: string)
    requires |dots| > 0 && AllDots(dots)
    requires '.' !in rest && '/' !in rest
    ensures SplitExtRoot(dots + rest) == dots + rest
  {
    var p := dots + rest;
    var sep := LastIndexOf(p, '/');
    var dot := LastIndexOf(p, '.');
    assert dot < |dots|;
    assert sep == -1;
    if dot > sep {
      assert p[..dot] == dots[..dot];
    }
  }

  /** The output name: `splitext(filename)[0] + ".txt"`. */
  function OutputName(filename: string): (r: string)
    ensures EndsWith(r, ".txt")
    ensures StartsWith(r, SplitExtRoot(filename))
  {
    var root := SplitExtRoot(filename);
    assert (root + ".txt")[..|root|] == root;
    root + ".txt"
  }

  /** Files with the same stem and different extensions get the same output name. */
  lemma SameStemSameOutput(stem: string, ext1: string, ext2: string)
    requires '/' !in stem && !AllDots(stem)
    requires '.' !in ext1 && '/' !in ext1 && '.' !in ext2 && '/' !in ext2
    ensures OutputName(stem + "." + ext1) == OutputName(stem + "." + ext2) == stem + ".txt"
  {
    SplitExtOfStemAndExt(stem, ext1);
    SplitExtOfStemAndExt(stem, ext2);
  }

  /** The output path for a selected input: `os.path.join(output_folder, base_name + ".txt")`. */
  function OutputPath(outputFolder: string, filename: string): (p: string)
    ensures EndsWith(p, ".txt")
    ensures !StartsWith(OutputName(filename), "/") ==> StartsWith(p, outputFolder)
  {
    var name := OutputName(filename);
    var p := PathJoin(outputFolder, name);
    assert p[|p| - 4..] == name[|name| - 4..] by {
      assert EndsWith(p, name);
    }
    p
  }

  // ---------------------------------------------------------------------------
  // The output folder
  // ---------------------------------------------------------------------------

  /** A folder of text files, by path; `open(path, "w").write(text)` replaces a file whole. */
  class OutputFolder {
    var files: map<string, string>

    constructor(initial: map<string, string>)
      ensures files == initial
    {
      files := initial;
    }

    /** Create or overwrite the file at `path` with `text`; no other file changes. */
    method Write(path: string, text: string)
      modifies this
      ensures files == old(files)[path := text]
    {
      files := files[path := text];
    }
  }

  /** The folder after a series of whole-file writes, in order: the last write to a path wins. */
  function AfterWrites(files: map<string, string>, writes: seq<(string, string)>): (r: map<string, string>)
    ensures r.Keys == files.Keys + set i | 0 <= i < |writes| :: writes[i].0
  {
    InsertAll(files, writes)
  }
}
