/** Naming of the output file: the input path with the extension of its
    final element replaced by ".svg". */
module Utils {
  import opened Wrappers

  /** Separator between path elements. */
  const Separator := '/'

  /** Every '.' of path is followed, later on, by a separator: the final
      element of path has no dot. */
  predicate NoDotInLastElement(path: string) {
    forall j :: 0 <= j < |path| && path[j] == '.' ==>
      exists k :: j < k < |path| && path[k] == Separator
  }

  /** Where the extension of path starts: the last '.' that no separator
      follows, if there is one. */
  function ExtStart(path: string): (k: Option<nat>)
    ensures k.Some? ==> k.value < |path| && path[k.value] == '.'
    ensures k.Some? ==> forall j :: k.value < j < |path| ==> path[j] != '.' && path[j] != Separator
    ensures k.None? <==> NoDotInLastElement(path)
  {
    if path == [] then None
    else
      var init := path[..|path| - 1];
      var last := path[|path| - 1];
      if last == Separator then
        None
      else if last == '.' then
        Some(|path| - 1)
      else
        var k := ExtStart(init);
        assert forall j :: 0 <= j < |init| ==> init[j] == path[j];
        k
  }

  /** The extension of path, as Go's filepath.Ext computes it: the suffix
      from the last '.' of the final element, or empty when that element
      has none. */
  function Ext(path: string): (e: string)
    ensures |e| <= |path| && path[|path| - |e|..] == e
    ensures e != [] ==> e[0] == '.' && forall j :: 0 < j < |e| ==> e[j] != '.' && e[j] != Separator
    ensures e == [] <==> NoDotInLastElement(path)
  {
    match ExtStart(path)
    case Some(k) => path[k..]
    case None => []
  }

  /** The output path for an input: the input without its extension,
      followed by ".svg". */
  function GenerateOutputName(inputPath: string): (r: string)
    ensures |r| >= 4 && r[|r| - 4..] == ".svg"
    ensures r[..|r| - 4] + Ext(inputPath) == inputPath
  {
    var ext := Ext(inputPath);
    var base := inputPath[..|inputPath| - |ext|];
    base + ".svg"
  }

  /** An input whose final element has no dot only gets ".svg" appended. */
  lemma OutputNameWithoutExtension(inputPath: string)
    requires NoDotInLastElement(inputPath)
    ensures GenerateOutputName(inputPath) == inputPath + ".svg"
  {
  }

  /** A path ending in an extension, a '.' followed by characters that are
      neither dots nor separators, has that extension. */
  lemma ExtOfSuffix(base: string, ext: string)
    requires ext != [] && ext[0] == '.'
    requires forall j :: 0 < j < |ext| ==> ext[j] != '.' && ext[j] != Separator
    ensures Ext(base + ext) == ext
  {
    var p := base + ext;
    var n := |base|;
    assert p[n] == '.';
    var k := ExtStart(p).value;
    assert forall j :: n < j < |p| ==> p[j] == ext[j - n];
  }

  /** Renaming a path with an extension replaces that extension by ".svg". */
  lemma OutputNameReplacesExtension(base: string, ext: string)
    requires ext != [] && ext[0] == '.'
    requires forall j :: 0 < j < |ext| ==> ext[j] != '.' && ext[j] != Separator
    ensures GenerateOutputName(base + ext) == base + ".svg"
  {
    ExtOfSuffix(base, ext);
    assert (base + ext)[..|base|] == base;
  }

  /** Renaming an output name again leaves it as it is. */
  lemma GenerateOutputNameIdempotent(inputPath: string)
    ensures GenerateOutputName(GenerateOutputName(inputPath)) == GenerateOutputName(inputPath)
  {
    var r := GenerateOutputName(inputPath);
    var base := inputPath[..|inputPath| - |Ext(inputPath)|];
    ExtOfSuffix(base, ".svg");
    assert r[..|r| - 4] == base;
  }

  /** A dot in a directory name is not an extension. */
  lemma OutputNameDirectoryDot()
    ensures GenerateOutputName("a.b/c") == "a.b/c.svg"
  {
    var p := "a.b/c";
    assert NoDotInLastElement(p) by {
      assert p[3] == Separator;
    }
    OutputNameWithoutExtension(p);
  }

  /** Only the last dot of the final element starts the extension. */
  lemma OutputNameLastDot()
    ensures GenerateOutputName("photos/cat.tar.png") == "photos/cat.tar.svg"
  {
    var base, ext := "photos/cat.tar", ".png";
    assert base + ext == "photos/cat.tar.png";
    OutputNameReplacesExtension(base, ext);
  }
}
