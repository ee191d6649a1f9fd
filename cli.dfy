// The decisions `main` takes from its arguments, the names it gives its
// artifacts, the ranking-mode file filter, and one generation step (parse the
// model's CSV, build the task list, write the script). The clock is a
// parameter: `timestamp` stands for `datetime.now().strftime("%Y%m%d-%H%M%S")`.

module Cli {
  import opened Results
  import opened Text
  import opened CsvParse
  import opened ScriptEmit
  import opened ScriptRead
  import Ranking

  // ---------------------------------------------------------------- flags

  /** Python truthiness of `args.multiple`, which is `None` or an integer. */
  predicate Truthy(multiple: Option<int>)
  {
    multiple.Some? && multiple.value != 0
  }

  /** Lines 241-242: `-m` and `-a` are rejected together, judged by truthiness. */
  predicate FlagsConflict(multiple: Option<int>, autoRun: bool)
  {
    Truthy(multiple) && autoRun
  }

  /** Lines 269-272: `num_scripts`. */
  function NumScripts(multiple: Option<int>): int
  {
    if Truthy(multiple) then multiple.value else 1
  }

  /** The indices `i+1` of the iterations of `for i in range(num_scripts)`. */
  function ScriptIndices(multiple: Option<int>): (r: seq<nat>)
    ensures |r| == (if NumScripts(multiple) < 0 then 0 else NumScripts(multiple))
    ensures forall k :: 0 <= k < |r| ==> r[k] == k + 1
  {
    var n := NumScripts(multiple);
    if n <= 0 then [] else seq(n, k => k + 1)
  }

  /**
   * Line 306: the test after the generation loop, true when more than one
   * script was asked for. It is reached only when no iteration raised; see
   * `GenerateScripts` for the whole loop.
   */
  predicate RanksAfterGeneration(multiple: Option<int>)
  {
    NumScripts(multiple) > 1
  }

  /**
   * A falsy `-m` (absent or `-m 0`) means exactly one script and no ranking,
   * and is never rejected together with `-a`.
   */
  lemma FalsyMultipleMeansOneScript(multiple: Option<int>, autoRun: bool)
    requires !Truthy(multiple)
    ensures !FlagsConflict(multiple, autoRun)
    ensures ScriptIndices(multiple) == [1]
    ensures !RanksAfterGeneration(multiple)
  {
    assert ScriptIndices(multiple)[0] == 1;
  }

  /** Accepted flags that ask for auto-run generate exactly one script and rank nothing. */
  lemma AutoRunRunsOneScript(multiple: Option<int>)
    requires !FlagsConflict(multiple, true)
    ensures ScriptIndices(multiple) == [1]
    ensures !RanksAfterGeneration(multiple)
  {
    FalsyMultipleMeansOneScript(multiple, true);
  }

  /**
   * The test at line 306 asks for ranking exactly when at least two iterations
   * are to run; a negative `-m` runs none.
   */
  lemma RankingNeedsTwoScripts(multiple: Option<int>)
    ensures RanksAfterGeneration(multiple) <==> |ScriptIndices(multiple)| >= 2
    ensures Truthy(multiple) && multiple.value < 0 ==> ScriptIndices(multiple) == []
  {
  }

  // ---------------------------------------------------------------- artifact names

  /** `goal[:width].replace(" ", "-")`. */
  function GoalSlug(goal: string, width: nat): string
  {
    ReplaceChar(goal[..if |goal| < width then |goal| else width], ' ', "-")
  }

  /**
   * The slug keeps the first `width` characters of the goal (all of them when
   * the goal is shorter), with every space turned into `-` and nothing else
   * changed.
   */
  lemma GoalSlugShape(goal: string, width: nat)
    ensures var r := GoalSlug(goal, width);
      |r| == (if |goal| < width then |goal| else width)
      && ' ' !in r
      && forall i :: 0 <= i < |r| ==> r[i] == (if goal[i] == ' ' then '-' else goal[i])
  {
    var prefix := goal[..if |goal| < width then |goal| else width];
    ReplaceCharOneForOne(prefix, ' ', '-');
  }

  /** A goal without spaces that fits the width is its own slug. */
  lemma GoalSlugOfPlainGoal(goal: string, width: nat)
    requires ' ' !in goal && |goal| <= width
    ensures GoalSlug(goal, width) == goal
  {
    assert goal[..|goal|] == goal;
    ReplaceCharAbsent(goal, ' ', "-");
  }

  function DigitChar(d: nat): char
    requires d < 10
  {
    "0123456789"[d]
  }

  /** The decimal text of a natural number, as an f-string prints it. */
  function NatToString(n: nat): (r: string)
    ensures |r| >= 1
    ensures forall i :: 0 <= i < |r| ==> '0' <= r[i] <= '9'
  {
    if n < 10 then [DigitChar(n)] else NatToString(n / 10) + [DigitChar(n % 10)]
  }

  /** The value of a string of decimal digits. */
  function DigitsValue(s: string): nat
    requires forall i :: 0 <= i < |s| ==> '0' <= s[i] <= '9'
  {
    if s == [] then 0 else DigitsValue(s[..|s| - 1]) * 10 + (s[|s| - 1] as int - '0' as int)
  }

  /** The decimal text of a number reads back as that number. */
  lemma {:induction false} NatToStringValue(n: nat)
    ensures DigitsValue(NatToString(n)) == n
  {
    var r := NatToString(n);
    if n >= 10 {
      NatToStringValue(n / 10);
      assert r[..|r| - 1] == NatToString(n / 10);
    }
  }

  /** `%Y%m%d-%H%M%S`: eight digits, a dash, six digits. */
  predicate IsTimestamp(ts: string)
  {
    |ts| == 15 && forall i :: 0 <= i < |ts| ==> if i == 8 then ts[i] == '-' else '0' <= ts[i] <= '9'
  }

  const ArtifactPrefix: string := "crewai-autocrew-"

  /** Line 37: the CSV in which the model's answer for script `index` is saved. */
  function CsvArtifactName(timestamp: string, goal: string, index: nat): string
  {
    ArtifactPrefix + timestamp + "-" + GoalSlug(goal, 40) + "-" + NatToString(index) + ".csv"
  }

  /** Lines 289-291: the generated script for iteration `index`. */
  function ScriptArtifactName(timestamp: string, goal: string, index: nat): string
  {
    ArtifactPrefix + timestamp + "-" + GoalSlug(goal, 50) + "-" + NatToString(index) + ".py"
  }

  /** Lines 309-311: the file the ranking is saved in. */
  function RankingArtifactName(timestamp: string, goal: string): string
  {
    ArtifactPrefix + timestamp + "-" + GoalSlug(goal, 50) + "-" + "ranking" + ".csv"
  }

  /**
   * The CSV and script names of an iteration carry the timestamp, the goal
   * slug (40 and 50 characters wide) and the iteration number, which reads
   * back from the name.
   */
  lemma ArtifactNamesShape(timestamp: string, goal: string, index: nat)
    ensures var csv := CsvArtifactName(timestamp, goal, index);
      StartsWith(csv, ArtifactPrefix) && EndsWith(csv, ".csv")
      && csv[|ArtifactPrefix| + |timestamp| + 1..][..|GoalSlug(goal, 40)|] == GoalSlug(goal, 40)
    ensures var py := ScriptArtifactName(timestamp, goal, index);
      StartsWith(py, ArtifactPrefix) && EndsWith(py, ".py")
      && py[|ArtifactPrefix| + |timestamp| + 1..][..|GoalSlug(goal, 50)|] == GoalSlug(goal, 50)
    ensures DigitsValue(NatToString(index)) == index
  {
    NatToStringValue(index);
  }

  lemma RankingIsLowerCase()
    ensures Lower("ranking") == "ranking"
  {
    assert NoUpper("ranking");
    LowerNoUpper("ranking");
  }

  /**
   * The ranking written after generation is never read back as a crew: the
   * concatenation of `rank_crews` skips it.
   */
  lemma RankingArtifactIsExcluded(timestamp: string, goal: string)
    ensures Ranking.IsExcluded(RankingArtifactName(timestamp, goal))
  {
    var head := ArtifactPrefix + timestamp + "-" + GoalSlug(goal, 50) + "-";
    LowerAppend(head + "ranking", ".csv");
    LowerAppend(head, "ranking");
    RankingIsLowerCase();
    ContainsMiddle(Lower(head), "ranking", Lower(".csv"));
  }

  /**
   * As written, `rank_crews` skips every CSV of a run whose working directory
   * or goal slug contains `ranking` in any case: line 171 tests the whole
   * path, which holds both, and not only the name of a ranking file. `dir`
   * is the directory part of the path, its final `/` included.
   */
  lemma RankingInPathSkipsCsv(dir: string, timestamp: string, goal: string, index: nat)
    requires Contains(Lower(dir), "ranking") || Contains(Lower(GoalSlug(goal, 40)), "ranking")
    ensures Ranking.IsExcluded(dir + CsvArtifactName(timestamp, goal, index))
  {
    var slug := GoalSlug(goal, 40);
    var head := ArtifactPrefix + timestamp + "-";
    var tail := "-" + NatToString(index) + ".csv";
    var path := dir + CsvArtifactName(timestamp, goal, index);
    if Contains(Lower(dir), "ranking") {
      assert path == [] + dir + CsvArtifactName(timestamp, goal, index);
      LowerContainsInside([], dir, CsvArtifactName(timestamp, goal, index), "ranking");
    } else {
      var named := head + slug;
      AppendAssoc(named, "-", NatToString(index));
      AppendAssoc(named, "-" + NatToString(index), ".csv");
      assert CsvArtifactName(timestamp, goal, index) == named + tail;
      AppendAssoc(dir, named, tail);
      AppendAssoc(dir, head, slug);
      LowerContainsInside(dir + head, slug, tail, "ranking");
    }
  }

  /**
   * The consequence for a whole run: when the directory or the goal slug
   * mentions `ranking`, the ranking input is the header alone, whatever the
   * CSVs hold.
   */
  lemma RankingInPathEmptiesRankingInput(dir: string, timestamps: seq<string>, goal: string,
                                         paths: seq<string>, files: map<string, string>)
    requires Contains(Lower(dir), "ranking") || Contains(Lower(GoalSlug(goal, 40)), "ranking")
    requires |timestamps| == |paths|
    requires forall k :: 0 <= k < |paths| ==> paths[k] == dir + CsvArtifactName(timestamps[k], goal, k + 1)
    ensures Ranking.Concatenation(paths, files) == Ok(Ranking.RankingHeader)
  {
    forall p | p in paths
      ensures Ranking.IsExcluded(p)
    {
      var k :| 0 <= k < |paths| && paths[k] == p;
      RankingInPathSkipsCsv(dir, timestamps[k], goal, k + 1);
    }
    Ranking.AllExcludedLeavesHeader(paths, files);
  }

  /** Line 171 corrected: skip the ranking files `main` writes (line 311), known by the end of their name. */
  predicate IsRankingOutput(path: string)
  {
    EndsWith(path, "-ranking.csv")
  }

  lemma RankingArtifactIsRankingOutput(dir: string, timestamp: string, goal: string)
    ensures IsRankingOutput(dir + RankingArtifactName(timestamp, goal))
  {
    var suffix := "-ranking.csv";
    var ranking := dir + RankingArtifactName(timestamp, goal);
    assert ranking == dir + ArtifactPrefix + timestamp + "-" + GoalSlug(goal, 50) + suffix;
    assert ranking[|ranking| - |suffix|..] == suffix;
  }

  lemma CsvArtifactIsNoRankingOutput(dir: string, timestamp: string, goal: string, index: nat)
    ensures !IsRankingOutput(dir + CsvArtifactName(timestamp, goal, index))
  {
    var digits := NatToString(index);
    var csv := dir + CsvArtifactName(timestamp, goal, index);
    assert csv == dir + ArtifactPrefix + timestamp + "-" + GoalSlug(goal, 40) + "-" + digits + ".csv";
    assert csv[|csv| - 5] == digits[|digits| - 1] != "-ranking.csv"[7];
  }

  /**
   * The corrected test skips the ranking file of any run, and never a crew
   * CSV, whatever the directory and the goal.
   */
  lemma RankingOutputTestIsExact(dir: string, timestamp: string, goal: string, index: nat)
    ensures IsRankingOutput(dir + RankingArtifactName(timestamp, goal))
    ensures !IsRankingOutput(dir + CsvArtifactName(timestamp, goal, index))
  {
    RankingArtifactIsRankingOutput(dir, timestamp, goal);
    CsvArtifactIsNoRankingOutput(dir, timestamp, goal, index);
  }

  // ---------------------------------------------------------------- the ranking-mode filter

  /** Line 250 as written: the name has the artifact prefix and extension and contains the goal itself. */
  predicate IsRankingCandidate(file: string, goal: string)
  {
    StartsWith(file, ArtifactPrefix) && EndsWith(file, ".csv") && Contains(file, goal)
  }

  /** Line 250 corrected: the name contains the goal's slug, as it was written into the name. */
  predicate IsSlugRankingCandidate(file: string, goal: string)
  {
    StartsWith(file, ArtifactPrefix) && EndsWith(file, ".csv") && Contains(file, GoalSlug(goal, 40))
  }

  /** The directory listing filtered by `keep`, in listing order. */
  function Filter(listing: seq<string>, keep: string -> bool): (r: seq<string>)
    ensures forall f :: f in r <==> f in listing && keep(f)
    ensures |r| <= |listing|
  {
    if listing == [] then []
    else
      var init := Filter(listing[..|listing| - 1], keep);
      if keep(listing[|listing| - 1]) then init + [listing[|listing| - 1]] else init
  }

  /** Line 250: `csv_file_paths` in ranking mode. */
  function RankingCandidates(listing: seq<string>, goal: string): seq<string>
  {
    Filter(listing, f => IsRankingCandidate(f, goal))
  }

  /** Line 250 with the corrected test. */
  function SlugRankingCandidates(listing: seq<string>, goal: string): seq<string>
  {
    Filter(listing, f => IsSlugRankingCandidate(f, goal))
  }

  lemma SpaceFreeArtifactName(timestamp: string, goal: string, index: nat)
    requires IsTimestamp(timestamp)
    ensures ' ' !in CsvArtifactName(timestamp, goal, index)
  {
    GoalSlugShape(goal, 40);
    assert ' ' !in timestamp by {
      forall i | 0 <= i < |timestamp| ensures timestamp[i] != ' ' {
      }
    }
    var slug := GoalSlug(goal, 40);
    var digits := NatToString(index);
    var name := CsvArtifactName(timestamp, goal, index);
    assert name == ArtifactPrefix + timestamp + "-" + slug + "-" + digits + ".csv";
    assert forall c :: c in name ==> c in ArtifactPrefix || c in timestamp || c == '-' || c in slug || c in digits || c in ".csv";
  }

  /**
   * As written, ranking mode never finds the CSVs of a goal that has a space:
   * their names carry the goal with spaces turned into `-`, so they contain
   * no space, while the filter looks for the goal itself.
   */
  lemma GoalWithSpaceMissesItsCsv(timestamp: string, goal: string, index: nat)
    requires IsTimestamp(timestamp) && ' ' in goal
    ensures !IsRankingCandidate(CsvArtifactName(timestamp, goal, index), goal)
    ensures RankingCandidates([CsvArtifactName(timestamp, goal, index)], goal) == []
  {
    SpaceFreeArtifactName(timestamp, goal, index);
    NotContainsMissingChar(CsvArtifactName(timestamp, goal, index), goal, ' ');
  }

  /** With the corrected test, every CSV saved for the goal is found, whatever the goal. */
  lemma SlugFilterFindsEveryCsv(listing: seq<string>, timestamp: string, goal: string, index: nat)
    requires CsvArtifactName(timestamp, goal, index) in listing
    ensures CsvArtifactName(timestamp, goal, index) in SlugRankingCandidates(listing, goal)
  {
    var slug := GoalSlug(goal, 40);
    var tail := "-" + NatToString(index) + ".csv";
    var name := CsvArtifactName(timestamp, goal, index);
    assert name == (ArtifactPrefix + timestamp + "-") + slug + tail;
    ContainsMiddle(ArtifactPrefix + timestamp + "-", slug, tail);
    assert IsSlugRankingCandidate(name, goal);
  }

  /** For a goal without spaces that fits the slug width, the corrected test is the original one. */
  lemma SlugFilterAgreesOnPlainGoals(file: string, goal: string)
    requires ' ' !in goal && |goal| <= 40
    ensures IsSlugRankingCandidate(file, goal) <==> IsRankingCandidate(file, goal)
  {
    GoalSlugOfPlainGoal(goal, 40);
  }

  // ---------------------------------------------------------------- one generation step

  /** How one iteration of the generation loop (lines 285-296) ends. */
  datatype StepOutcome =
    | ParseFailed(error: ParseError)
    | NoAgentData
    | TasksFailed(missingKey: string)
    | ScriptDone(script: ScriptOutcome)

  /**
   * Parse the tokenised answer saved at `csvPath`, refuse an empty result,
   * build `crew_tasks` and write the script.
   */
  function GenerationStep(lines: seq<seq<string>>, csvPath: string): StepOutcome
  {
    match ParseCsv(lines, csvPath)
    case Err(e) => ParseFailed(e)
    case Ok(agents) =>
      if agents == [] then NoAgentData
      else match CrewTasks(agents)
        case Err(k) => TasksFailed(k)
        case Ok(crewTasks) => ScriptDone(ScriptFile(agents, crewTasks))
  }

  /**
   * After a successful parse, `No agent data parsed` is raised exactly when
   * the answer is a header alone; the task list never fails, since every
   * record has a role; and the script file is always opened.
   */
  lemma GenerationStepOutcome(lines: seq<seq<string>>, csvPath: string)
    requires ParseCsv(lines, csvPath).Ok?
    ensures GenerationStep(lines, csvPath).NoAgentData? <==> |lines| == 1
    ensures !GenerationStep(lines, csvPath).TasksFailed?
    ensures GenerationStep(lines, csvPath).ScriptDone? ==> !GenerationStep(lines, csvPath).script.NotOpened?
  {
    ParseCsvRecords(lines, csvPath);
    var agents := ParseCsv(lines, csvPath).value;
    if agents != [] {
      assert RoleVarNames(agents).Ok?;
      var crewTasks := CrewTasks(agents).value;
      ScriptNotOpened(agents, crewTasks);
    }
  }

  /**
   * After a successful parse, the whole script is written exactly when every
   * record has a goal, a backstory, a delegation flag and a task.
   */
  lemma GenerationStepWritten(lines: seq<seq<string>>, csvPath: string)
    requires ParseCsv(lines, csvPath).Ok?
    ensures (GenerationStep(lines, csvPath).ScriptDone? && GenerationStep(lines, csvPath).script.Written?)
      <==> ParseCsv(lines, csvPath).value != [] && forall a :: a in ParseCsv(lines, csvPath).value ==> Complete(a)
  {
    ParseCsvRecords(lines, csvPath);
    var agents := ParseCsv(lines, csvPath).value;
    if agents != [] {
      assert RoleVarNames(agents).Ok?;
      var crewTasks := CrewTasks(agents).value;
      assert GenerationStep(lines, csvPath) == ScriptDone(ScriptFile(agents, crewTasks));
      ScriptWritten(agents, crewTasks);
      AllDefinedComplete(agents);
    }
  }

  /**
   * A written script holds one agent definition and one task definition per
   * data row, in row order, between the preamble and the crew, whose lists
   * come from the same records (see `CrossReferencesAgree` for how the names
   * in them match).
   */
  lemma GeneratedScriptFollowsRows(lines: seq<seq<string>>, csvPath: string)
    requires GenerationStep(lines, csvPath).ScriptDone? && GenerationStep(lines, csvPath).script.Written?
    ensures ParseCsv(lines, csvPath).Ok?
    ensures var agents := ParseCsv(lines, csvPath).value;
      |agents| == |lines| - 1 && |agents| > 0 && AllDefined(agents)
      && CrewAgents(agents).Ok? && CrewTasks(agents).Ok?
      && GenerationStep(lines, csvPath).script.text
        == Prelude + Concat(Blocks(agents, AgentDefinition)) + Concat(Blocks(agents, DefineTask))
           + CrewBlock(CrewAgents(agents).value, CrewTasks(agents).value)
  {
    ParseCsvRecords(lines, csvPath);
    var agents := ParseCsv(lines, csvPath).value;
    assert RoleVarNames(agents).Ok?;
    var crewTasks := CrewTasks(agents).value;
    assert GenerationStep(lines, csvPath) == ScriptDone(ScriptFile(agents, crewTasks));
    ScriptWritten(agents, crewTasks);
    ScriptText(agents, crewTasks);
  }

  // ---------------------------------------------------------------- the generation loop

  /** An iteration completes only when its whole script is written; every other outcome raises. */
  predicate Completes(step: StepOutcome)
  {
    step.ScriptDone? && step.script.Written?
  }

  /**
   * Lines 274-306, with the work of one iteration as the parameter `iteration`:
   * the iterations run in order inside one `try`. The answer of iteration
   * `i + 1` is `answers[i]`, saved at `csvPaths[i]`. The first iteration that
   * raises ends the loop, and the handler at lines 328-330 skips the remaining
   * iterations and the ranking. `saved` is `csv_file_paths`, the list
   * `rank_crews` is given, and `ranked` says whether `rank_crews` is called.
   */
  method RunIterations(multiple: Option<int>, answers: seq<seq<seq<string>>>, csvPaths: seq<string>,
                       iteration: (seq<seq<string>>, string) -> StepOutcome)
    returns (completed: nat, saved: seq<string>, ranked: bool)
    requires |answers| == |ScriptIndices(multiple)| && |csvPaths| == |answers|
    ensures completed <= |answers|
    ensures forall i :: 0 <= i < completed ==> Completes(iteration(answers[i], csvPaths[i]))
    ensures completed < |answers| ==> !Completes(iteration(answers[completed], csvPaths[completed]))
    ensures saved == csvPaths[..completed]
    ensures ranked <==> RanksAfterGeneration(multiple) && completed == |answers|
    ensures ranked ==> |saved| == |answers| >= 2
  {
    completed := 0;
    saved := [];
    while completed < |answers|
      invariant completed <= |answers|
      invariant forall i :: 0 <= i < completed ==> Completes(iteration(answers[i], csvPaths[i]))
      invariant saved == csvPaths[..completed]
    {
      var step := iteration(answers[completed], csvPaths[completed]);
      if !Completes(step) {
        // the exception leaves the loop; the handler skips the ranking
        ranked := false;
        return;
      }
      saved := saved + [csvPaths[completed]];
      completed := completed + 1;
    }
    ranked := RanksAfterGeneration(multiple);
  }

  /** The generation loop of `main`, each iteration being `GenerationStep`. */
  method GenerateScripts(multiple: Option<int>, answers: seq<seq<seq<string>>>, csvPaths: seq<string>)
    returns (completed: nat, saved: seq<string>, ranked: bool)
    requires |answers| == |ScriptIndices(multiple)| && |csvPaths| == |answers|
    ensures completed <= |answers|
    ensures forall i :: 0 <= i < completed ==> Completes(GenerationStep(answers[i], csvPaths[i]))
    ensures completed < |answers| ==> !Completes(GenerationStep(answers[completed], csvPaths[completed]))
    ensures saved == csvPaths[..completed]
    ensures ranked <==> RanksAfterGeneration(multiple) && completed == |answers|
    ensures ranked ==> |saved| == |answers| >= 2
  {
    completed, saved, ranked := RunIterations(multiple, answers, csvPaths, GenerationStep);
  }
}
