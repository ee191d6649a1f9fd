/**
 * Code emission: `define_agent`, `get_task_var_name`, `define_task`,
 * `write_crewai_script` and the `crew_tasks` list built in `main`. The script
 * is modelled as the text written to the file.
 */
module ScriptEmit {
  import opened Results
  import opened Text
  import opened CsvParse

  // ---------------------------------------------------------------- identifiers

  predicate IsSeparator(c: char)
  {
    c == ' ' || c == '-' || c == '.'
  }

  /** `role.replace(' ', '_').replace('-', '_').replace('.', '_')`: the agent's variable name. */
  function VarName(role: string): string
  {
    ReplaceChar(ReplaceChar(ReplaceChar(role, ' ', "_"), '-', "_"), '.', "_")
  }

  /** `get_task_var_name`. */
  function TaskVarName(role: string): string
  {
    "task_" + VarName(role)
  }

  /**
   * The derived name has the role's length; every space, hyphen and period
   * becomes an underscore and every other character is kept.
   */
  lemma VarNameChars(role: string)
    ensures |VarName(role)| == |role|
    ensures forall i :: 0 <= i < |role| ==> VarName(role)[i] == (if IsSeparator(role[i]) then '_' else role[i])
  {
    var a := ReplaceChar(role, ' ', "_");
    var b := ReplaceChar(a, '-', "_");
    ReplaceCharOneForOne(role, ' ', '_');
    ReplaceCharOneForOne(a, '-', '_');
    ReplaceCharOneForOne(b, '.', '_');
  }

  /** No space, hyphen or period survives the derivation. */
  lemma VarNameHasNoSeparator(role: string)
    ensures forall c :: c in VarName(role) ==> !IsSeparator(c)
  {
    VarNameChars(role);
  }

  lemma VarNameIdempotent(role: string)
    ensures VarName(VarName(role)) == VarName(role)
  {
    VarNameChars(role);
    VarNameChars(VarName(role));
  }

  /** The task variable is `task_` followed by the agent variable, so it has no separator either. */
  lemma TaskVarNameShape(role: string)
    ensures |TaskVarName(role)| == |role| + 5
    ensures StartsWith(TaskVarName(role), "task_") && TaskVarName(role)[5..] == VarName(role)
    ensures forall c :: c in TaskVarName(role) ==> !IsSeparator(c)
  {
    VarNameChars(role);
  }

  // ---------------------------------------------------------------- field text

  /** `s.replace('"', '\\"').replace("'", "\\'")`, used for `role` and `backstory`. */
  function EscapeQuotes(s: string): string
  {
    ReplaceChar(ReplaceChar(s, '"', "\\\""), '\'', "\\'")
  }

  /** `s.replace('"', '\\"')`, used for the task description. */
  function EscapeDoubleQuotes(s: string): string
  {
    ReplaceChar(s, '"', "\\\"")
  }

  /** The `allow_delegation=` argument: `True` only for the exact string `"True"`. */
  function Delegation(flag: string): (r: string)
    ensures r == "True" || r == "False"
    ensures r == "True" <==> flag == "True"
  {
    if flag == "True" then "True" else "False"
  }

  // ---------------------------------------------------------------- templates

  // Fixed pieces of an agent definition; `GoalOpen`, `BackstoryOpen` and
  // `DelegationOpen` begin with the `"` that closes the literal before them.
  const AgentOpen: string := " = Agent(\n    role=\""
  const GoalOpen: string := "\",\n    goal=\""
  const BackstoryOpen: string := "\",\n    backstory=\""
  const DelegationOpen: string := "\",\n    verbose=True,\n    allow_delegation="
  const ToolsOpen: string := ",\n    llm=ollama_openhermes,\n    tools=["
  const AgentClose: string := "]\n)\n\n"

  /** The text of one `Agent(...)` definition. */
  function AgentText(name: string, role: string, goal: string, backstory: string, delegation: string, tool: string): string
  {
    name + (AgentOpen + (role + (GoalOpen + (goal + (BackstoryOpen + (backstory
    + (DelegationOpen + (delegation + (ToolsOpen + (tool + AgentClose))))))))))
  }

  const TaskOpen: string := " = Task(\n description=\""
  const AgentRefOpen: string := "\",\n agent="
  const TaskClose: string := ",\n verbose=True,\n)\n\n"

  /** The text of one `Task(...)` definition. */
  function TaskText(name: string, description: string, agentRef: string): string
  {
    name + (TaskOpen + (description + (AgentRefOpen + (agentRef + TaskClose))))
  }

  /** The name of the search tool the script passes to every agent. */
  const SearchTool: string := "search_tool"

  /** `define_agent`; `Err(k)` is the `KeyError` for the first missing key `k`. */
  function DefineAgent(agent: Record, searchTool: string): Result<string, string>
  {
    if "role" !in agent then Err("role")
    else if "backstory" !in agent then Err("backstory")
    else if "allow_delegation" !in agent then Err("allow_delegation")
    else if "goal" !in agent then Err("goal")
    else
      var role := agent["role"];
      Ok(AgentText(VarName(role), EscapeQuotes(role), agent["goal"], EscapeQuotes(agent["backstory"]),
                   Delegation(agent["allow_delegation"]), searchTool))
  }

  /** `define_task`. */
  function DefineTask(agent: Record): Result<string, string>
  {
    if "role" !in agent then Err("role")
    else if "assigned_task" !in agent then Err("assigned_task")
    else
      var role := agent["role"];
      Ok(TaskText(TaskVarName(role), EscapeDoubleQuotes(PyStrip(agent["assigned_task"])), VarName(role)))
  }

  /** The variable name of every agent, in order, or the `KeyError` of the first without a role. */
  function RoleVarNames(agents: seq<Record>): (r: Result<seq<string>, string>)
    ensures r.Ok? <==> forall i :: 0 <= i < |agents| ==> "role" in agents[i]
    ensures r.Ok? ==> |r.value| == |agents| && forall i :: 0 <= i < |agents| ==> r.value[i] == VarName(agents[i]["role"])
    ensures r.Err? ==> r.error == "role"
  {
    if agents == [] then Ok([])
    else if "role" !in agents[0] then Err("role")
    else match RoleVarNames(agents[1..])
      case Err(k) => Err(k)
      case Ok(names) => Ok([VarName(agents[0]["role"])] + names)
  }

  /** `crew_agents` in `write_crewai_script`. */
  function CrewAgents(agents: seq<Record>): Result<string, string>
  {
    match RoleVarNames(agents)
    case Err(k) => Err(k)
    case Ok(names) => Ok(Join(", ", names))
  }

  /** `crew_tasks` in `main`: the task variable of every agent, joined with `, `. */
  function CrewTasks(agents: seq<Record>): Result<string, string>
  {
    match RoleVarNames(agents)
    case Err(k) => Err(k)
    case Ok(names) => Ok(Join(", ", Prefixed("task_", names)))
  }

  const Prelude: string :=
    "import os\n"
    + "from langchain_community.chat_models import ChatOpenAI\n"
    + "from langchain_community.llms import Ollama\n"
    + "from langchain_community.tools import DuckDuckGoSearchRun\n"
    + "from crewai import Agent, Task, Crew, Process\n\n"
    + "os.environ[\"OPENAI_API_KEY\"] = \"your_OPENAI_api_key_here\"\n\n"
    + "ollama_openhermes = Ollama(model=\"openhermes\")\n"
    + "search_tool = DuckDuckGoSearchRun()\n\n"

  function CrewBlock(crewAgents: string, crewTasks: string): string
  {
    "crew = Crew(\n"
    + "    agents=[" + crewAgents + "],\n"
    + "    tasks=[" + crewTasks + "],\n"
    + "    verbose=True,\n"
    + "    process=Process.sequential,\n"
    + ")\n\n"
    + "# Kickoff the crew tasks\n"
    + "result = crew.kickoff()\n\n"
    + "# Handle the \"result\" as needed\n"
  }

  // ---------------------------------------------------------------- the script file

  /** Text written by one of the two loops, and the key of the `KeyError` that stopped it, if any. */
  datatype Emitted = Emitted(text: string, failed: Option<string>)

  /** The definition `write_crewai_script` emits for one agent: `define_agent` with the search tool. */
  function AgentDefinition(agent: Record): Result<string, string>
  {
    DefineAgent(agent, SearchTool)
  }

  /**
   * One of the two loops of `write_crewai_script`: each record's definition
   * (`define` is `define_agent` or `define_task`) followed by a blank line, up
   * to the first record whose definition raises.
   */
  function Section(agents: seq<Record>, define: Record -> Result<string, string>): Emitted
  {
    if agents == [] then Emitted([], None)
    else
      var e := Section(agents[..|agents| - 1], define);
      if e.failed.Some? then e
      else match define(agents[|agents| - 1])
        case Err(k) => Emitted(e.text, Some(k))
        case Ok(block) => Emitted(e.text + block + "\n", None)
  }

  /**
   * What `write_crewai_script` leaves behind: no file when `crew_agents` raises
   * (it is computed before the file is opened), a truncated file when a
   * definition raises, and the whole script otherwise.
   */
  datatype ScriptOutcome = NotOpened(missingKey: string) | Truncated(partial: string, missingKey: string) | Written(text: string)

  function ScriptFile(agents: seq<Record>, crewTasks: string): ScriptOutcome
  {
    match CrewAgents(agents)
    case Err(k) => NotOpened(k)
    case Ok(crewAgents) =>
      var a := Section(agents, AgentDefinition);
      if a.failed.Some? then Truncated(Prelude + a.text, a.failed.value)
      else
        var t := Section(agents, DefineTask);
        if t.failed.Some? then Truncated(Prelude + a.text + t.text, t.failed.value)
        else Written(Prelude + a.text + t.text + CrewBlock(crewAgents, crewTasks))
  }

  lemma SectionExtend(agents: seq<Record>, define: Record -> Result<string, string>, n: nat)
    requires n < |agents|
    ensures Section(agents[..n + 1], define) ==
      var e := Section(agents[..n], define);
      if e.failed.Some? then e
      else match define(agents[n])
        case Err(k) => Emitted(e.text, Some(k))
        case Ok(block) => Emitted(e.text + block + "\n", None)
  {
    assert agents[..n + 1][..n] == agents[..n];
  }

  /** Once a definition has raised, the later records add nothing. */
  lemma {:induction false} SectionFailureSticks(agents: seq<Record>, define: Record -> Result<string, string>, n: nat)
    requires n <= |agents| && Section(agents[..n], define).failed.Some?
    ensures Section(agents, define) == Section(agents[..n], define)
  {
    if n < |agents| {
      assert agents[..|agents| - 1][..n] == agents[..n];
      SectionFailureSticks(agents[..|agents| - 1], define, n);
    } else {
      assert agents[..n] == agents;
    }
  }

  /** `write_crewai_script`, writing into a buffer that stands for the file. */
  method WriteCrewaiScript(agents: seq<Record>, crewTasks: string) returns (out: ScriptOutcome)
    ensures out == ScriptFile(agents, crewTasks)
  {
    var crewAgents := CrewAgents(agents);
    if crewAgents.Err? {
      return NotOpened(crewAgents.error);
    }
    var file := Prelude;
    var n := 0;
    while n < |agents|
      invariant 0 <= n <= |agents|
      invariant Section(agents[..n], AgentDefinition).failed.None?
      invariant file == Prelude + Section(agents[..n], AgentDefinition).text
    {
      SectionExtend(agents, AgentDefinition, n);
      var block := DefineAgent(agents[n], SearchTool);
      if block.Err? {
        SectionFailureSticks(agents, AgentDefinition, n + 1);
        return Truncated(file, block.error);
      }
      ghost var done := Section(agents[..n], AgentDefinition).text;
      AppendAssoc(Prelude, done, block.value);
      AppendAssoc(Prelude, done + block.value, "\n");
      file := file + block.value;
      file := file + "\n";
      n := n + 1;
    }
    assert agents[..n] == agents;
    ghost var agentText := Section(agents, AgentDefinition).text;
    n := 0;
    while n < |agents|
      invariant 0 <= n <= |agents|
      invariant Section(agents[..n], DefineTask).failed.None?
      invariant file == Prelude + agentText + Section(agents[..n], DefineTask).text
    {
      SectionExtend(agents, DefineTask, n);
      var block := DefineTask(agents[n]);
      if block.Err? {
        SectionFailureSticks(agents, DefineTask, n + 1);
        return Truncated(file, block.error);
      }
      ghost var done := Section(agents[..n], DefineTask).text;
      AppendAssoc(Prelude + agentText, done, block.value);
      AppendAssoc(Prelude + agentText, done + block.value, "\n");
      file := file + block.value;
      file := file + "\n";
      n := n + 1;
    }
    assert agents[..n] == agents;
    file := file + CrewBlock(crewAgents.value, crewTasks);
    return Written(file);
  }

  // ---------------------------------------------------------------- layout of the script

  /**
   * `define_agent` succeeds exactly when the record has a role, a backstory,
   * a delegation flag and a goal, and `define_task` exactly when it has a
   * role and a task; otherwise each raises `KeyError` for a field it reads.
   */
  lemma DefinitionsSucceed(agent: Record)
    ensures AgentDefinition(agent).Ok?
      <==> "role" in agent && "backstory" in agent && "allow_delegation" in agent && "goal" in agent
    ensures AgentDefinition(agent).Err? ==> AgentDefinition(agent).error !in agent
    ensures DefineTask(agent).Ok? <==> "role" in agent && "assigned_task" in agent
    ensures DefineTask(agent).Err? ==> DefineTask(agent).error !in agent
  {
  }

  /** Every record yields both an agent definition and a task definition. */
  predicate AllDefined(agents: seq<Record>)
  {
    forall i :: 0 <= i < |agents| ==> AgentDefinition(agents[i]).Ok? && DefineTask(agents[i]).Ok?
  }

  /** The definitions of all records, each followed by the blank line its loop writes. */
  function Blocks(agents: seq<Record>, define: Record -> Result<string, string>): seq<string>
    requires forall i :: 0 <= i < |agents| ==> define(agents[i]).Ok?
  {
    seq(|agents|, i requires 0 <= i < |agents| => define(agents[i]).value + "\n")
  }

  /** Every field a script needs from a record. */
  predicate Complete(agent: Record)
  {
    "role" in agent && "goal" in agent && "backstory" in agent
    && "allow_delegation" in agent && "assigned_task" in agent
  }

  /** Both definitions succeed for every record exactly when every record has every field they read. */
  lemma AllDefinedComplete(agents: seq<Record>)
    ensures AllDefined(agents) <==> forall a :: a in agents ==> Complete(a)
  {
    forall a | a in agents
      ensures AgentDefinition(a).Ok? && DefineTask(a).Ok? <==> Complete(a)
    {
      DefinitionsSucceed(a);
    }
  }

  /** A loop finishes exactly when every record has a definition, and then writes them all in record order. */
  lemma {:induction false} SectionComplete(agents: seq<Record>, define: Record -> Result<string, string>)
    ensures Section(agents, define).failed.None? <==> forall i :: 0 <= i < |agents| ==> define(agents[i]).Ok?
    ensures Section(agents, define).failed.None? ==> Section(agents, define).text == Concat(Blocks(agents, define))
  {
    if agents != [] {
      var init := agents[..|agents| - 1];
      SectionComplete(init, define);
      assert forall i :: 0 <= i < |init| ==> init[i] == agents[i];
      if Section(agents, define).failed.None? {
        var last := define(agents[|agents| - 1]).value + "\n";
        assert Blocks(agents, define) == Blocks(init, define) + [last];
        ConcatSnoc(Blocks(init, define), last);
      }
    }
  }

  /** No file is opened exactly when some record has no role: `crew_agents` raises before `open`. */
  lemma ScriptNotOpened(agents: seq<Record>, crewTasks: string)
    ensures ScriptFile(agents, crewTasks).NotOpened? <==> exists i :: 0 <= i < |agents| && "role" !in agents[i]
    ensures ScriptFile(agents, crewTasks).NotOpened? ==> ScriptFile(agents, crewTasks).missingKey == "role"
  {
    var names := RoleVarNames(agents);
    if names.Err? {
      assert CrewAgents(agents) == Err("role");
    } else {
      assert CrewAgents(agents) == Ok(Join(", ", names.value));
    }
  }

  /** The whole script is written exactly when every record yields both definitions. */
  lemma ScriptWritten(agents: seq<Record>, crewTasks: string)
    ensures ScriptFile(agents, crewTasks).Written? <==> AllDefined(agents)
  {
    SectionComplete(agents, AgentDefinition);
    SectionComplete(agents, DefineTask);
    if AllDefined(agents) {
      assert forall i :: 0 <= i < |agents| ==> "role" in agents[i];
      assert CrewAgents(agents).Ok?;
    }
  }

  /**
   * A written script is the preamble, every agent definition in record order,
   * every task definition in record order, and the crew listing every agent
   * variable, each definition followed by a blank line.
   */
  lemma ScriptText(agents: seq<Record>, crewTasks: string)
    requires AllDefined(agents)
    ensures ScriptFile(agents, crewTasks).Written?
    ensures ScriptFile(agents, crewTasks).text
      == Prelude + Concat(Blocks(agents, AgentDefinition)) + Concat(Blocks(agents, DefineTask))
         + CrewBlock(Join(", ", RoleVarNames(agents).value), crewTasks)
  {
    ScriptWritten(agents, crewTasks);
    SectionComplete(agents, AgentDefinition);
    SectionComplete(agents, DefineTask);
    assert forall i :: 0 <= i < |agents| ==> "role" in agents[i];
    assert CrewAgents(agents) == Ok(Join(", ", RoleVarNames(agents).value));
  }
}
