# Autocrew script generator, modelled in Dafny

Autocrew asks a local language model for a team of agents as CSV, parses that
CSV into one record per agent, and writes a CrewAI Python script that defines
one `Agent` and one `Task` per record and a `Crew` over all of them. With
`-m N` it does this N times and asks the model to rank the resulting crews,
feeding it every crew CSV prefixed with its file name.

This project models the deterministic string and sequence logic in the middle
of that pipeline and proves what it promises:

- `results.dfy` — `Option` and `Result`.
- `text.dfy` — the Python string operations the program relies on
  (`str.replace` of one character, `strip('"')`, `strip()`, ASCII `lower()`,
  `join`, `split`, `in`, `startswith`/`endswith`) with their algebra: joins
  and splits undo each other, stripping is idempotent and only removes ends.
- `csv_parse.dfy` — `parse_csv_data` over already tokenised rows: a
  specification function `ParseCsv` and the nested loops as the method
  `ParseCsvData`, proved equal to it; record count and order, the
  `filename` stamp, the role check, the case-insensitive header mapping,
  short and long rows, quote stripping.
- `script_emit.dfy` — variable names derived from roles, `define_agent`,
  `get_task_var_name`, `define_task`, the `crew_tasks` join and
  `write_crewai_script` as a method appending to a text buffer, proved equal
  to the function `ScriptFile` that says which of three things happens: no
  file (a record has no role), a truncated file (a definition raises
  `KeyError`), or the whole script.
- `script_read.dfy` — a reader for the emitted Python: string literals with
  `\"`, `\'` and `\\` escapes, the `name = Agent(...)` and `name = Task(...)`
  blocks and comma-separated name lists. It is the partner of the emitter:
  reading a definition back gives the record's fields, and the names in the
  crew lists, the definitions and the task `agent=` arguments agree.
- `ranking.dfy` — the input `rank_crews` builds for the ranking prompt:
  de-duplication and the concatenation loop, with file contents as a map from
  path to text.
- `cli.dfy` — the flag logic of `main`, artifact names, the ranking-mode
  file filter and the skip test of `rank_crews` (with the findings below),
  one generation step (parse, refuse an empty result, build `crew_tasks`,
  write the script) and the generation loop, which an exception in any
  iteration ends before the ranking.

Python `KeyError`, `IndexError` and `ValueError` are values (`Err(key)`,
`IndexError`, `ValueError(message)`); Python dicts are `map<string, string>`.

## Model

| member | source | states |
|---|---|---|
| CsvParse.ParseCsv | crewai-autocrew.py:44-65 | `parse_csv_data` on tokenised rows: `IndexError` without a header row, else the rows parsed in order against the header's columns; its properties are the `ParseRows…` and `ParseCsvRecords` lemmas below |
| CsvParse.ColumnOf | crewai-autocrew.py:52-53 | `header_mapping.get(h.lower())`: the column a header cell names, or none; characterised by `ColumnOfCaseInsensitive` |
| CsvParse.HeaderIndices | crewai-autocrew.py:53 | `header_indices`: the column of each header cell, position by position |
| CsvParse.RowRecord | crewai-autocrew.py:56-64 | one row's dict, or the row's `IndexError` or `ValueError`; characterised by `RowRecordOutcome` and `AssignedContents` |
| CsvParse.ColumnsLowerCase | crewai-autocrew.py:45-52 | every column name is its own lower-case form, so `header_mapping` maps each column to itself |
| CsvParse.ColumnOfCaseInsensitive | crewai-autocrew.py:52-53 | a header cell names a column exactly when it has the column's length and each character lower-cases to the column's character |
| CsvParse.ColumnOfIgnoresCase | crewai-autocrew.py:53 | header cells that differ only in ASCII case map to the same column or to none |
| CsvParse.FillAgentData | crewai-autocrew.py:56-60 | the inner loop fails with `IndexError` exactly when the row is longer than the header, and otherwise builds the dict of the row's mapped fields |
| CsvParse.ParseCsvData | crewai-autocrew.py:44-65 | the nested loops compute exactly `ParseCsv`: `IndexError` on no rows, the first row's exception, or the list of records |
| CsvParse.ParseRowsErrorSticks | crewai-autocrew.py:55-64 | once a row raises, later rows change nothing: the parse raises that exception |
| CsvParse.ParseRowsCountAndOrder | crewai-autocrew.py:55-64 | a successful parse has one record per data row, the i-th built from the i-th row |
| CsvParse.ParseRowsFirstError | crewai-autocrew.py:55-64 | the parse succeeds iff every row does; a failure is the exception of the first failing row |
| CsvParse.LastFieldOfSpec | crewai-autocrew.py:57-60 | the index that sets a key is the last field mapped to it, or none |
| CsvParse.AssignedContents | crewai-autocrew.py:57-60 | a key is in a row's dict iff some field maps to it, and its value is the quote-stripped last such field; unknown columns are never stored |
| CsvParse.RowRecordOutcome | crewai-autocrew.py:55-64 | a longer row raises `IndexError`; a missing or empty role raises `ValueError('Role component missing in CSV data')`; a record has only known keys, a non-empty role and `filename` set to the argument, overriding any `filename` column |
| CsvParse.ParseCsvRecords | crewai-autocrew.py:44-65 | a successful parse has `len(lines) - 1` records in row order, each with the given `filename` and a non-empty role |
| CsvParse.StoredFieldShape | crewai-autocrew.py:60 | a stored value is the field with all leading and trailing `"` removed and its middle unchanged |
| Text.StripShape | crewai-autocrew.py:60 | `strip` removes a run of dropped characters at each end and keeps the middle, which starts and ends with kept characters |
| Text.StripIdempotent | crewai-autocrew.py:60 | stripping twice is stripping once |
| ScriptEmit.VarName | crewai-autocrew.py:69 | the role with space, `-` and `.` each replaced by `_`; characterised by `VarNameChars` |
| ScriptEmit.TaskVarName | crewai-autocrew.py:86-87 | `get_task_var_name`: `task_` before the role's variable name; see `TaskVarNameShape` |
| ScriptEmit.DefineAgent | crewai-autocrew.py:68-83 | `define_agent`: the `Agent(...)` block for a record, or `KeyError` for the first of role, backstory, allow_delegation, goal it lacks; read back by `AgentDefinitionReadsBack` |
| ScriptEmit.DefineTask | crewai-autocrew.py:90-102 | `define_task`: the `Task(...)` block for a record, or `KeyError` for role or assigned_task; read back by `TaskDefinitionReadsBack` |
| ScriptEmit.CrewAgents | crewai-autocrew.py:106 | `crew_agents`: the records' variable names joined with `, `, or `KeyError('role')` |
| ScriptEmit.CrewTasks | crewai-autocrew.py:294 | `crew_tasks`: the records' task variable names joined with `, `, or `KeyError('role')`; split back by `CrossReferencesAgree` |
| ScriptEmit.Section | crewai-autocrew.py:119-125 | one of the two loops of `write_crewai_script`: each record's block and a line break, up to the first definition that raises; see `SectionComplete` |
| ScriptEmit.ScriptFile | crewai-autocrew.py:105-137 | what `write_crewai_script` leaves: no file, a truncated file and the `KeyError`, or the whole script; see `ScriptNotOpened`, `ScriptWritten`, `ScriptText` |
| ScriptEmit.VarNameChars | crewai-autocrew.py:69 | the variable name has the role's length and replaces exactly space, `-` and `.` with `_`, keeping every other character |
| ScriptEmit.VarNameHasNoSeparator | crewai-autocrew.py:69 | the variable name contains no space, `-` or `.` |
| ScriptEmit.VarNameIdempotent | crewai-autocrew.py:69 | deriving the name of a derived name changes nothing |
| ScriptEmit.TaskVarNameShape | crewai-autocrew.py:86-87 | the task variable is `task_` followed by the agent's variable name |
| ScriptEmit.Delegation | crewai-autocrew.py:72 | the flag is `True` exactly when the field equals `True`, and `False` otherwise |
| ScriptEmit.DefinitionsSucceed | crewai-autocrew.py:68-102 | `define_agent` succeeds iff role, backstory, allow_delegation and goal are present, `define_task` iff role and assigned_task are; a `KeyError` names an absent key |
| ScriptEmit.RoleVarNames | crewai-autocrew.py:106 | the names list exists iff every record has a role, and then holds each record's variable name in order |
| ScriptEmit.WriteCrewaiScript | crewai-autocrew.py:105-137 | the two loops write exactly `ScriptFile`: nothing without a role, a truncated file at the first failing definition, the whole script otherwise |
| ScriptEmit.SectionFailureSticks | crewai-autocrew.py:119-125 | after a definition raises, later records add nothing |
| ScriptEmit.SectionComplete | crewai-autocrew.py:119-125 | a loop finishes iff every record's definition succeeds, and then writes each definition plus a line break in record order |
| ScriptEmit.AllDefinedComplete | crewai-autocrew.py:68-102 | both definitions succeed for all records iff every record has all five fields |
| ScriptEmit.ScriptNotOpened | crewai-autocrew.py:106-107 | no file is opened exactly when some record has no role, and the error names `role` |
| ScriptEmit.ScriptWritten | crewai-autocrew.py:105-137 | the whole script is written exactly when every record yields both definitions |
| ScriptEmit.ScriptText | crewai-autocrew.py:108-136 | a written script is the preamble, all agent definitions, all task definitions, then the crew over all agent variables |
| ScriptRead.ReadEscapeQuotes | crewai-autocrew.py:70-71 | a role or backstory escaped for `"` and `'` reads back from the literal unchanged |
| ScriptRead.ReadEscapeDoubleQuotes | crewai-autocrew.py:94 | a task description escaped for `"` reads back unchanged |
| ScriptRead.ReadVerbatim | crewai-autocrew.py:76 | a goal without quotes reads back unchanged though it is not escaped |
| ScriptRead.VerbatimQuoteEndsLiteral | crewai-autocrew.py:76 | an unescaped `"` in the goal ends the literal there |
| ScriptRead.ReadDelegation | crewai-autocrew.py:72 | the emitted flag reads back as whether the field was `True` |
| ScriptRead.AgentDefinitionReadsBack | crewai-autocrew.py:68-83 | reading an agent definition back gives its variable, role, goal, backstory, flag and tool |
| ScriptRead.TaskDefinitionReadsBack | crewai-autocrew.py:90-102 | reading a task definition back gives its variable, the stripped task and the agent's variable |
| ScriptRead.AgentDefinitionName | crewai-autocrew.py:69-74 | an agent definition defines the role's variable name |
| ScriptRead.TaskDefinitionNames | crewai-autocrew.py:90-102 | a task definition defines `task_` plus the variable name and refers to the agent by that name |
| ScriptRead.CrossReferencesAgree | crewai-autocrew.py:105-137 | the crew `agents` and `tasks` lists split back into one name per record; the i-th agent name is what the i-th agent definition defines and the i-th task's `agent=`, the i-th task name what the i-th task definition defines |
| Text.SplitOnJoinCommaSpace | crewai-autocrew.py:106 | names without spaces joined with `, ` split back into the same names |
| Ranking.IsExcluded | crewai-autocrew.py:171 | a path is skipped when its lower-cased form contains `ranking` |
| Ranking.FileBlock | crewai-autocrew.py:179-184 | what one file adds: each line of its stripped content prefixed with `basename,`, then a line break; see `FileBlockLines` |
| Ranking.Concatenation | crewai-autocrew.py:168-184 | the concatenation loop as a function: the header and the blocks of the files not skipped, or the first path that cannot be opened; see `ConcatenationOutcome`, `ConcatenationText` |
| Ranking.Basename | crewai-autocrew.py:179 | the basename is the path's suffix after its last `/` and holds no `/` |
| Ranking.ConcatenateCsv | crewai-autocrew.py:168-184 | the loop computes `Concatenation`: skip ranking paths, append each other file's block, stop at the first file that cannot be opened |
| Ranking.Deduplicate | crewai-autocrew.py:164 | the result holds the same paths, each once |
| Ranking.RankingInput | crewai-autocrew.py:164-184 | de-duplicated paths, then their concatenation |
| Ranking.ConcatenationOutcome | crewai-autocrew.py:170-177 | the concatenation succeeds iff every non-ranking path can be opened; a failure names such a path |
| Ranking.ConcatenationText | crewai-autocrew.py:168-184 | a successful concatenation is the header followed by the block of every non-ranking path in order |
| Ranking.ConcatenationStartsWithHeader | crewai-autocrew.py:168 | the text starts with `filename,role,goal,backstory,assigned_task,allow_delegation` and a line break |
| Ranking.ExcludedContentIrrelevant | crewai-autocrew.py:171-172 | files whose lower-cased path contains `ranking` contribute nothing, whatever they hold |
| Ranking.AllExcludedLeavesHeader | crewai-autocrew.py:168-172 | when every path is skipped, the concatenation is the header alone |
| Ranking.FileBlockLines | crewai-autocrew.py:179-184 | each line of a file's block is the basename, a comma and the corresponding line of the stripped content, and those lines rejoin to the stripped content |
| Text.JoinSplit | crewai-autocrew.py:182 | splitting on a character and joining with it gives the text back |
| Cli.FlagsConflict | crewai-autocrew.py:241-242 | `-m` and `-a` are refused together, `-m` judged by truthiness |
| Cli.NumScripts | crewai-autocrew.py:269-272 | `num_scripts`: the value of a truthy `-m`, else 1 |
| Cli.RanksAfterGeneration | crewai-autocrew.py:306 | the test after the loop: more than one script was asked for |
| Cli.FalsyMultipleMeansOneScript | crewai-autocrew.py:241-272 | an absent `-m` or `-m 0` is never rejected with `-a`, gives one script and no ranking |
| Cli.AutoRunRunsOneScript | crewai-autocrew.py:241-277 | accepted flags with `-a` run exactly one iteration and no ranking |
| Cli.RankingNeedsTwoScripts | crewai-autocrew.py:269-306 | the test at line 306 asks for ranking exactly when at least two iterations are to run; a negative `-m` runs none (whether the ranking is reached is `GenerateScripts`) |
| Cli.ScriptIndices | crewai-autocrew.py:277 | the iterations are numbered 1 to `num_scripts` |
| Cli.GoalSlug | crewai-autocrew.py:37 | the goal's first characters with spaces turned into `-`; characterised by `GoalSlugShape` |
| Cli.CsvArtifactName | crewai-autocrew.py:37 | the name of the CSV saved for iteration `index` |
| Cli.ScriptArtifactName | crewai-autocrew.py:289-291 | the name of the script of iteration `index` |
| Cli.RankingArtifactName | crewai-autocrew.py:309-311 | the name of the ranking file |
| Cli.GoalSlugShape | crewai-autocrew.py:37 | the slug has the goal's first 40 or 50 characters with each space turned into `-` and nothing else changed |
| Cli.NatToStringValue | crewai-autocrew.py:291 | the iteration number in a name reads back as that number |
| Cli.ArtifactNamesShape | crewai-autocrew.py:289-291 | CSV and script names start with `crewai-autocrew-`, end in `.csv`/`.py` and carry the slug after the timestamp |
| Cli.RankingArtifactIsExcluded | crewai-autocrew.py:309-311 | the ranking file main writes is one `rank_crews` skips |
| Cli.RankingInPathSkipsCsv | crewai-autocrew.py:171 | as written, a crew CSV is skipped whenever the working directory or the goal slug contains `ranking` in any case |
| Cli.RankingInPathEmptiesRankingInput | crewai-autocrew.py:168-184 | as written, such a run's ranking input is the header alone, whatever its CSVs hold |
| Cli.IsRankingOutput | crewai-autocrew.py:171 | the corrected skip test: the path ends in `-ranking.csv` |
| Cli.RankingArtifactIsRankingOutput | crewai-autocrew.py:309-311 | the corrected test skips the ranking file `main` writes, in any directory |
| Cli.CsvArtifactIsNoRankingOutput | crewai-autocrew.py:37 | the corrected test never skips a crew CSV, whatever the directory and the goal |
| Cli.RankingOutputTestIsExact | crewai-autocrew.py:171 | the corrected test skips the ranking file of any run and no crew CSV |
| Cli.IsRankingCandidate | crewai-autocrew.py:250 | line 250 as written: prefix, `.csv` extension, and the goal text in the name |
| Cli.GoalWithSpaceMissesItsCsv | crewai-autocrew.py:250 | as written, a goal with a space never matches the names of its own CSVs |
| Cli.SlugFilterFindsEveryCsv | crewai-autocrew.py:250 | the corrected filter finds every CSV saved for the goal |
| Cli.SlugFilterAgreesOnPlainGoals | crewai-autocrew.py:250 | for goals of at most 40 characters without spaces the corrected filter is the original one |
| Cli.Filter | crewai-autocrew.py:250 | the filtered listing holds exactly the names that pass the test |
| Cli.GenerationStep | crewai-autocrew.py:285-296 | one iteration: parse the answer, refuse an empty result, build `crew_tasks`, write the script; each way it can end is a `StepOutcome` |
| Cli.GenerationStepOutcome | crewai-autocrew.py:285-296 | after a successful parse, `No agent data parsed` is raised iff there is only a header, `crew_tasks` never fails and the script file is always opened |
| Cli.GenerationStepWritten | crewai-autocrew.py:285-296 | after a successful parse, the whole script is written iff there are records and each has goal, backstory, allow_delegation and assigned_task |
| Cli.GeneratedScriptFollowsRows | crewai-autocrew.py:285-296 | a written script has one agent and one task definition per data row, in row order, and the crew built from the same records |
| Cli.RunIterations | crewai-autocrew.py:274-330 | the generation loop inside its `try`: the iterations before the first one that raises complete, that one ends the loop, `csv_file_paths` holds the completed iterations' CSVs, and the ranking is reached exactly when more than one script was asked for and every iteration completed |
| Cli.GenerateScripts | crewai-autocrew.py:274-330 | the same with `GenerationStep` as each iteration: a row without a role, a header alone or a missing field in any iteration ends the run without ranking |

## Left out

- The language model: `initialize_ollama`, `get_agent_data` and every `invoke` are outside the model; the tokenised answer is an input.
- `check_latest_version`: a network fetch and a version comparison from a library outside this repository.
- The clock: timestamps are a parameter (`IsTimestamp` describes their shape).
- The `csv.reader` tokeniser and the `csv.writer` of the ranking file: the parser starts from tokenised rows, and the ranking file's contents are not modelled.
- File system effects (`open`, `write`, `os.listdir`, `os.getcwd`, `os.system`): the script is a text buffer, file contents a map, the directory listing a sequence.
- Argument parsing and `input()`: flags and the goal are parameters.
- `Ranking.Deduplicate`: `list(set(...))` has no specified order; the method keeps first occurrences, and its contract promises only the same paths, each once.
- The prompt texts, the summary prose and printing in `rank_crews` and `main`.
- The `No response from Ollama` check on the raw answer (line 280): the raw text is not modelled, only its tokenised rows.
- The loop of `main` (lines 274-330) is `Cli.GenerateScripts` over given answers and CSV paths; prompting the model, saving the CSV, auto-running the script and the ranking call itself are I/O around it.
- `Text.Lower`: ASCII letters only; Python lower-cases all of Unicode. Column names and `ranking` are ASCII, so matching against them is unaffected for ASCII input, but not for every input: Python lower-cases U+212A KELVIN SIGN to `k`, so a header cell `BAC\u212ASTORY` names `backstory` in Python and no column in the model, and a path holding `RAN\u212AING` is skipped by Python and not by the model. `CsvParse.ColumnOfCaseInsensitive`, `CsvParse.ColumnOfIgnoresCase` and `Ranking.IsExcluded` hold with that limit.
- `ScriptRead.AgentDefinitionReadsBack`: proved only for role, goal and backstory without backslash, line feed or carriage return, and a goal without `"`, because the generator escapes neither backslashes nor line breaks and emits the goal unescaped.
- `ScriptRead.TaskDefinitionReadsBack`: proved only for a stripped task without backslash, line feed or carriage return, for the same reason.
- `ScriptRead.ReadVerbatim`: requires a goal without `"`; `ScriptRead.VerbatimQuoteEndsLiteral` shows what happens otherwise.
- `Ranking.FileBlockLines`: requires a basename without a line feed; a POSIX file name may hold one, and then the block's lines do not split back one per content line.
- A partial file left by an I/O error, and integer width: Python integers are unbounded, as are Dafny's.

## Findings

| source | as written | input that shows it | evidently intended | confidence | as-written member | corrected member |
|---|---|---|---|---|---|---|
| crewai-autocrew.py:250 | ranking mode keeps a CSV only if the goal text itself occurs in its name | goal `market research`: its CSVs are named `crewai-autocrew-<timestamp>-market-research-<n>.csv`, which contain no space, so none is found | match the goal as it was written into the names (line 37): its first 40 characters with spaces turned into `-` | not executed | Cli.GoalWithSpaceMissesItsCsv | Cli.SlugFilterFindsEveryCsv |
| crewai-autocrew.py:171 | `rank_crews` skips a file when its whole lower-cased path contains `ranking`, though the comment on line 172 speaks of the file name and the files to skip are the rankings `main` writes (line 311) | goal `ranking algorithms` (its CSVs carry the slug `ranking-algorithms`), or a working directory `/home/u/ranking`: every CSV of the run is skipped and the ranking prompt holds the header alone | skip only the ranking files, whose names end in `-ranking.csv` | not executed | Cli.RankingInPathEmptiesRankingInput | Cli.RankingOutputTestIsExact |
