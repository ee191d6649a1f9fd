// The input `rank_crews` assembles for the ranking prompt: the de-duplicated
// CSV paths, and every non-ranking CSV's rows prefixed with its file name,
// under a fixed header. File contents are a map from path to text; a path
// missing from the map is the `FileNotFoundError` of `open`.

module Ranking {
  import opened Results
  import opened Text

  /** The first line of the concatenated CSV data. */
  const RankingHeader: string := "filename,role,goal,backstory,assigned_task,allow_delegation\n"

  /** `"ranking" in file_path.lower()`: such a file is skipped (it is a ranking, not a crew). */
  predicate IsExcluded(path: string)
  {
    Contains(Lower(path), "ranking")
  }

  /** `os.path.basename`: the part of the path after its last `/`. */
  function Basename(path: string): (r: string)
    ensures |r| <= |path| && r == path[|path| - |r|..]
    ensures '/' !in r
    ensures |r| < |path| ==> path[|path| - |r| - 1] == '/'
  {
    if path == [] || path[|path| - 1] == '/' then []
    else Basename(path[..|path| - 1]) + [path[|path| - 1]]
  }

  /** What one file adds: every line of its stripped content prefixed with `name,`, then a line break. */
  function FileBlock(name: string, data: string): string
  {
    Join("\n", Prefixed(name + ",", Split(PyStrip(data), '\n'))) + "\n"
  }

  /**
   * The concatenation loop over `paths` in order: `Err(path)` for the first
   * included path that cannot be opened, the accumulated text otherwise.
   */
  function Concatenation(paths: seq<string>, files: map<string, string>): Result<string, string>
  {
    if paths == [] then Ok(RankingHeader)
    else
      var path := paths[|paths| - 1];
      match Concatenation(paths[..|paths| - 1], files)
      case Err(p) => Err(p)
      case Ok(acc) =>
        if IsExcluded(path) then Ok(acc)
        else if path !in files then Err(path)
        else Ok(acc + FileBlock(Basename(path), files[path]))
  }

  lemma {:induction false} ConcatenationErrorSticks(paths: seq<string>, files: map<string, string>, n: nat)
    requires n <= |paths| && Concatenation(paths[..n], files).Err?
    ensures Concatenation(paths, files) == Concatenation(paths[..n], files)
  {
    if n < |paths| {
      assert paths[..|paths| - 1][..n] == paths[..n];
      ConcatenationErrorSticks(paths[..|paths| - 1], files, n);
    } else {
      assert paths[..n] == paths;
    }
  }

  /** The loop of `rank_crews` accumulating `concatenated_csv_data`. */
  method ConcatenateCsv(paths: seq<string>, files: map<string, string>) returns (r: Result<string, string>)
    ensures r == Concatenation(paths, files)
  {
    var concatenated := RankingHeader;
    var n := 0;
    while n < |paths|
      invariant 0 <= n <= |paths|
      invariant Concatenation(paths[..n], files) == Ok(concatenated)
    {
      assert paths[..n + 1][..n] == paths[..n];
      var path := paths[n];
      if !IsExcluded(path) {
        if path !in files {
          ConcatenationErrorSticks(paths, files, n + 1);
          return Err(path);
        }
        var data := files[path];
        var filename := Basename(path);
        var withFilename := Join("\n", Prefixed(filename + ",", Split(PyStrip(data), '\n')));
        AppendAssoc(concatenated, withFilename, "\n");
        concatenated := concatenated + withFilename + "\n";
      }
      n := n + 1;
    }
    assert paths[..n] == paths;
    return Ok(concatenated);
  }

  /** `list(set(paths))`: the same paths, each once. */
  method Deduplicate(paths: seq<string>) returns (d: seq<string>)
    ensures forall p :: p in d <==> p in paths
    ensures forall i, j :: 0 <= i < j < |d| ==> d[i] != d[j]
  {
    d := [];
    var n := 0;
    while n < |paths|
      invariant 0 <= n <= |paths|
      invariant forall p :: p in d <==> p in paths[..n]
      invariant forall i, j :: 0 <= i < j < |d| ==> d[i] != d[j]
    {
      assert paths[..n + 1] == paths[..n] + [paths[n]];
      if paths[n] !in d {
        d := d + [paths[n]];
      }
      n := n + 1;
    }
    assert paths[..n] == paths;
  }

  /** Lines 164-184 of `rank_crews`: de-duplicate the paths, then concatenate. */
  method RankingInput(paths: seq<string>, files: map<string, string>) returns (distinct: seq<string>, r: Result<string, string>)
    ensures forall p :: p in distinct <==> p in paths
    ensures forall i, j :: 0 <= i < j < |distinct| ==> distinct[i] != distinct[j]
    ensures r == Concatenation(distinct, files)
  {
    distinct := Deduplicate(paths);
    r := ConcatenateCsv(distinct, files);
  }

  // ---------------------------------------------------------------- properties

  /** The paths that are not skipped, in order. */
  function Included(paths: seq<string>): (r: seq<string>)
    ensures forall p :: p in r <==> p in paths && !IsExcluded(p)
  {
    if paths == [] then []
    else
      var init := Included(paths[..|paths| - 1]);
      if IsExcluded(paths[|paths| - 1]) then init else init + [paths[|paths| - 1]]
  }

  /** The block of every path in `paths`. */
  function Blocks(paths: seq<string>, files: map<string, string>): seq<string>
    requires forall p :: p in paths ==> p in files
  {
    if paths == [] then []
    else Blocks(paths[..|paths| - 1], files) + [FileBlock(Basename(paths[|paths| - 1]), files[paths[|paths| - 1]])]
  }

  lemma BlocksSnoc(paths: seq<string>, path: string, files: map<string, string>)
    requires forall p :: p in paths ==> p in files
    requires path in files
    ensures Blocks(paths + [path], files) == Blocks(paths, files) + [FileBlock(Basename(path), files[path])]
  {
    assert (paths + [path])[..|paths|] == paths;
  }

  /**
   * The concatenation succeeds exactly when every path that is not skipped can
   * be opened; a failure names an included path that cannot be opened.
   */
  lemma {:induction false} ConcatenationOutcome(paths: seq<string>, files: map<string, string>)
    ensures Concatenation(paths, files).Ok? <==> forall p :: p in paths && !IsExcluded(p) ==> p in files
    ensures Concatenation(paths, files).Err? ==>
      var p := Concatenation(paths, files).error; p in paths && !IsExcluded(p) && p !in files
  {
    if paths != [] {
      var init := paths[..|paths| - 1];
      var path := paths[|paths| - 1];
      ConcatenationOutcome(init, files);
      assert paths == init + [path];
      assert forall p :: p in paths <==> p in init || p == path;
    }
  }

  /** A successful concatenation is the header followed by the block of every included path, in order. */
  lemma {:induction false} ConcatenationText(paths: seq<string>, files: map<string, string>)
    requires Concatenation(paths, files).Ok?
    ensures forall p :: p in Included(paths) ==> p in files
    ensures Concatenation(paths, files).value == RankingHeader + Concat(Blocks(Included(paths), files))
  {
    ConcatenationOutcome(paths, files);
    if paths != [] {
      var init := paths[..|paths| - 1];
      var path := paths[|paths| - 1];
      ConcatenationText(init, files);
      var inc := Included(init);
      if !IsExcluded(path) {
        assert Included(paths) == inc + [path];
        assert path in files;
        var block := FileBlock(Basename(path), files[path]);
        BlocksSnoc(inc, path, files);
        ConcatSnoc(Blocks(inc, files), block);
        AppendAssoc(RankingHeader, Concat(Blocks(inc, files)), block);
      }
    }
  }

  /** A successful concatenation starts with the fixed header. */
  lemma ConcatenationStartsWithHeader(paths: seq<string>, files: map<string, string>)
    requires Concatenation(paths, files).Ok?
    ensures StartsWith(Concatenation(paths, files).value, RankingHeader)
  {
    ConcatenationText(paths, files);
  }

  /** Skipped files contribute nothing: their presence and contents do not change the result. */
  lemma {:induction false} ExcludedContentIrrelevant(paths: seq<string>, files: map<string, string>, others: map<string, string>)
    requires forall p :: !IsExcluded(p) ==> (p in files <==> p in others)
    requires forall p :: !IsExcluded(p) && p in files ==> files[p] == others[p]
    ensures Concatenation(paths, files) == Concatenation(paths, others)
  {
    if paths != [] {
      ExcludedContentIrrelevant(paths[..|paths| - 1], files, others);
    }
  }

  /** When every path is skipped, the concatenation is the header alone. */
  lemma {:induction false} AllExcludedLeavesHeader(paths: seq<string>, files: map<string, string>)
    requires forall p :: p in paths ==> IsExcluded(p)
    ensures Concatenation(paths, files) == Ok(RankingHeader)
  {
    if paths != [] {
      var init := paths[..|paths| - 1];
      assert forall p :: p in init ==> p in paths;
      AllExcludedLeavesHeader(init, files);
      assert paths[|paths| - 1] in paths;
    }
  }

  /**
   * The lines of a file's block are its file name, a comma and the lines of
   * the stripped content, in order, and those lines rejoin to the stripped
   * content; the block ends with a line break.
   */
  lemma FileBlockLines(name: string, data: string)
    requires '\n' !in name
    ensures var block := FileBlock(name, data);
      |block| > 0 && block[|block| - 1] == '\n'
      && Split(block[..|block| - 1], '\n') == Prefixed(name + ",", Split(PyStrip(data), '\n'))
    ensures Join("\n", Split(PyStrip(data), '\n')) == PyStrip(data)
  {
    var lines := Split(PyStrip(data), '\n');
    var prefixed := Prefixed(name + ",", lines);
    SplitPiecesLackSeparator(PyStrip(data), '\n');
    forall p | p in prefixed ensures '\n' !in p {
      var i :| 0 <= i < |prefixed| && prefixed[i] == p;
      assert p == name + "," + lines[i];
    }
    SplitJoin(prefixed, '\n');
    var block := FileBlock(name, data);
    assert block[..|block| - 1] == Join("\n", prefixed);
    JoinSplit(PyStrip(data), '\n');
  }
}
