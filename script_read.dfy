/**
 * Reading the generated script back. A reader for the definitions the emitter
 * writes is the partner of the emitter: it shows which field values come back
 * out of the string literals, and that the names a definition introduces are
 * the names the crew lists and the task definitions refer to.
 */
module ScriptRead {
  import opened Results
  import opened Text
  import opened CsvParse
  import opened ScriptEmit

  // ---------------------------------------------------------------- string literals

  /** A character that may stand unescaped in a one-line Python string literal and is not a backslash. */
  predicate LiteralSafe(c: char)
  {
    c != '\\' && c != '\n' && c != '\r'
  }

  /**
   * Reads what follows the opening `"` of a Python string literal: the decoded
   * text and the rest, from the closing quote on. Only the escapes `\"`, `\'` and
   * `\\` are read; another escape, a line break or a missing closing quote
   * gives `None`.
   */
  function ReadLiteral(s: string): Option<(string, string)>
    decreases |s|
  {
    if s == [] then None
    else if s[0] == '"' then Some(([], s))
    else if s[0] == '\n' || s[0] == '\r' then None
    else if s[0] == '\\' then
      if |s| >= 2 && (s[1] == '"' || s[1] == '\'' || s[1] == '\\') then
        var r :- ReadLiteral(s[2..]);
        Some(([s[1]] + r.0, r.1))
      else None
    else
      var r :- ReadLiteral(s[1..]);
      Some(([s[0]] + r.0, r.1))
  }

  function EscapedChar(c: char): string
  {
    if c == '"' then "\\\"" else if c == '\'' then "\\'" else [c]
  }

  lemma EscapeQuotesCons(c: char, s: string)
    ensures EscapeQuotes([c] + s) == EscapedChar(c) + EscapeQuotes(s)
  {
    var once := ReplaceChar([c], '"', "\\\"");
    ReplaceCharAppend([c], s, '"', "\\\"");
    ReplaceCharAppend(once, ReplaceChar(s, '"', "\\\""), '\'', "\\'");
    if c == '"' {
      assert once == "\\\"";
      ReplaceCharAbsent(once, '\'', "\\'");
    } else {
      assert once == [c];
    }
  }

  lemma EscapeDoubleQuotesCons(c: char, s: string)
    ensures EscapeDoubleQuotes([c] + s) == (if c == '"' then "\\\"" else [c]) + EscapeDoubleQuotes(s)
  {
    ReplaceCharAppend([c], s, '"', "\\\"");
  }

  /** One character written with its escape, in front of a literal's remainder, reads back as itself. */
  lemma ReadEscapedStep(c: char, escaped: string, tail: string)
    requires LiteralSafe(c)
    requires escaped == (if c == '"' || c == '\'' then ['\\', c] else [c])
    requires ReadLiteral(tail).Some?
    ensures ReadLiteral(escaped + tail) == Some(([c] + ReadLiteral(tail).value.0, ReadLiteral(tail).value.1))
  {
    var w := escaped + tail;
    if c == '"' || c == '\'' {
      assert w[0] == '\\' && w[1] == c && w[2..] == tail;
    } else {
      assert w[0] == c && w[1..] == tail;
    }
  }

  /** A literal written with `EscapeQuotes` reads back as the original text. */
  lemma {:induction false} ReadEscapeQuotes(s: string, rest: string)
    requires forall c :: c in s ==> LiteralSafe(c)
    requires rest != [] && rest[0] == '"'
    ensures ReadLiteral(EscapeQuotes(s) + rest) == Some((s, rest))
  {
    if s == [] {
      assert EscapeQuotes(s) + rest == rest;
    } else {
      var tail := EscapeQuotes(s[1..]) + rest;
      assert s == [s[0]] + s[1..];
      assert s[0] in s;
      EscapeQuotesCons(s[0], s[1..]);
      ReadEscapeQuotes(s[1..], rest);
      AppendAssoc(EscapedChar(s[0]), EscapeQuotes(s[1..]), rest);
      ReadEscapedStep(s[0], EscapedChar(s[0]), tail);
    }
  }

  /** A literal written with `EscapeDoubleQuotes` reads back as the original text. */
  lemma {:induction false} ReadEscapeDoubleQuotes(s: string, rest: string)
    requires forall c :: c in s ==> LiteralSafe(c)
    requires rest != [] && rest[0] == '"'
    ensures ReadLiteral(EscapeDoubleQuotes(s) + rest) == Some((s, rest))
  {
    if s == [] {
      assert EscapeDoubleQuotes(s) + rest == rest;
    } else {
      var tail := EscapeDoubleQuotes(s[1..]) + rest;
      var head: string := if s[0] == '"' then "\\\"" else [s[0]];
      assert s == [s[0]] + s[1..];
      assert s[0] in s;
      EscapeDoubleQuotesCons(s[0], s[1..]);
      ReadEscapeDoubleQuotes(s[1..], rest);
      AppendAssoc(head, EscapeDoubleQuotes(s[1..]), rest);
      if s[0] == '\'' {
        // a single quote is left as it is by this escape, and reads back unescaped
        assert head + tail == [s[0]] + tail;
        assert (head + tail)[1..] == tail;
      } else {
        ReadEscapedStep(s[0], head, tail);
      }
    }
  }

  /** Text placed in a literal without escaping reads back when it holds no `"`. */
  lemma {:induction false} ReadVerbatim(s: string, rest: string)
    requires forall c :: c in s ==> LiteralSafe(c) && c != '"'
    requires rest != [] && rest[0] == '"'
    ensures ReadLiteral(s + rest) == Some((s, rest))
  {
    if s != [] {
      assert s[0] in s;
      assert (s + rest)[1..] == s[1..] + rest;
      ReadVerbatim(s[1..], rest);
      assert [s[0]] + s[1..] == s;
    } else {
      assert s + rest == rest;
    }
  }

  /** A `"` in text placed without escaping ends the literal early: only the text before it reads back. */
  lemma VerbatimQuoteEndsLiteral(a: string, b: string)
    requires forall c :: c in a ==> LiteralSafe(c) && c != '"'
    ensures ReadLiteral(a + "\"" + b) == Some((a, "\"" + b))
  {
    assert a + "\"" + b == a + ("\"" + b);
    ReadVerbatim(a, "\"" + b);
  }

  // ---------------------------------------------------------------- pieces of a definition

  function Expect(s: string, prefix: string): Option<string>
  {
    if StartsWith(s, prefix) then Some(s[|prefix|..]) else None
  }

  lemma ExpectPrefix(prefix: string, s: string)
    ensures Expect(prefix + s, prefix) == Some(s)
  {
    assert (prefix + s)[..|prefix|] == prefix;
  }

  function Unsuffix(s: string, suffix: string): Option<string>
  {
    if EndsWith(s, suffix) then Some(s[..|s| - |suffix|]) else None
  }

  lemma UnsuffixSuffix(s: string, suffix: string)
    ensures Unsuffix(s + suffix, suffix) == Some(s)
  {
    assert (s + suffix)[|s|..] == suffix;
  }

  /** Position of the first space, or the length when there is none. */
  function FirstSpace(s: string): (i: nat)
    ensures i <= |s|
  {
    if s == [] || s[0] == ' ' then 0 else 1 + FirstSpace(s[1..])
  }

  lemma {:induction false} FirstSpaceAfter(name: string, rest: string)
    requires ' ' !in name && rest != [] && rest[0] == ' '
    ensures FirstSpace(name + rest) == |name|
  {
    if name != [] {
      assert (name + rest)[1..] == name[1..] + rest;
      FirstSpaceAfter(name[1..], rest);
    }
  }

  /** Text after the last space. */
  function AfterLastSpace(s: string): string
  {
    if s == [] || s[|s| - 1] == ' ' then [] else AfterLastSpace(s[..|s| - 1]) + [s[|s| - 1]]
  }

  lemma {:induction false} AfterLastSpaceOf(x: string, r: string)
    requires ' ' !in r
    ensures AfterLastSpace(x + " " + r) == r
  {
    if r != [] {
      var s := x + " " + r;
      assert s[..|s| - 1] == x + " " + r[..|r| - 1];
      AfterLastSpaceOf(x, r[..|r| - 1]);
      assert r[..|r| - 1] + [r[|r| - 1]] == r;
    } else {
      assert x + " " + r == x + " ";
    }
  }

  /** The variable a definition introduces: the text before its first space. */
  function DefinedName(definition: string): string
  {
    definition[..FirstSpace(definition)]
  }

  /** The `agent=` argument of a task definition, read from the end of the definition. */
  function AgentReference(definition: string): Option<string>
  {
    var body :- Unsuffix(definition, TaskClose);
    Expect(AfterLastSpace(body), "agent=")
  }

  function ReadFlag(s: string): Option<(bool, string)>
  {
    if StartsWith(s, "True") then Some((true, s[4..]))
    else if StartsWith(s, "False") then Some((false, s[5..]))
    else None
  }

  /** The normalised delegation flag reads back as whether the field was exactly `"True"`. */
  lemma ReadDelegation(flag: string, rest: string)
    ensures ReadFlag(Delegation(flag) + rest) == Some((flag == "True", rest))
  {
    var d := Delegation(flag) + rest;
    if flag == "True" {
      assert d[..4] == "True";
    } else {
      assert d[..5] == "False";
      assert d[..4] != "True" by { assert d[1] == 'a'; }
    }
  }

  datatype AgentDecl = AgentDecl(name: string, role: string, goal: string, backstory: string, allowDelegation: bool, tools: string)

  /** Reads an `Agent(...)` definition as the emitter lays it out. */
  function ReadAgentDefinition(t: string): Option<AgentDecl>
  {
    var i := FirstSpace(t);
    var r1 :- Expect(t[i..], AgentOpen);
    var role :- ReadLiteral(r1);
    var r2 :- Expect(role.1, GoalOpen);
    var goal :- ReadLiteral(r2);
    var r3 :- Expect(goal.1, BackstoryOpen);
    var backstory :- ReadLiteral(r3);
    var r4 :- Expect(backstory.1, DelegationOpen);
    var flag :- ReadFlag(r4);
    var r5 :- Expect(flag.1, ToolsOpen);
    var tools :- Unsuffix(r5, AgentClose);
    Some(AgentDecl(t[..i], role.0, goal.0, backstory.0, flag.0, tools))
  }

  datatype TaskDecl = TaskDecl(name: string, description: string, agent: string)

  /** Reads a `Task(...)` definition as the emitter lays it out. */
  function ReadTaskDefinition(t: string): Option<TaskDecl>
  {
    var i := FirstSpace(t);
    var r1 :- Expect(t[i..], TaskOpen);
    var description :- ReadLiteral(r1);
    var r2 :- Expect(description.1, AgentRefOpen);
    var agent :- Unsuffix(r2, TaskClose);
    Some(TaskDecl(t[..i], description.0, agent))
  }

  // ---------------------------------------------------------------- round trips

  predicate AllLiteralSafe(s: string)
  {
    forall c :: c in s ==> LiteralSafe(c)
  }

  /**
   * An agent definition reads back as the record it was made from: the derived
   * variable name, the role and backstory through their escaping, the goal
   * verbatim, the delegation flag as `allow_delegation == "True"`, and the tool.
   * This holds only for fields without backslashes or line breaks, and a goal
   * without `"`, since the emitter escapes none of these.
   */
  lemma AgentDefinitionReadsBack(agent: Record, tool: string)
    requires DefineAgent(agent, tool).Ok?
    requires AllLiteralSafe(agent["role"]) && AllLiteralSafe(agent["backstory"])
    requires AllLiteralSafe(agent["goal"]) && '"' !in agent["goal"]
    ensures ReadAgentDefinition(DefineAgent(agent, tool).value)
      == Some(AgentDecl(VarName(agent["role"]), agent["role"], agent["goal"], agent["backstory"],
                        agent["allow_delegation"] == "True", tool))
  {
    var role, goal, backstory, flag := agent["role"], agent["goal"], agent["backstory"], agent["allow_delegation"];
    var name := VarName(role);
    var tail5 := tool + AgentClose;
    var tail4 := ToolsOpen + tail5;
    var d := Delegation(flag) + tail4;
    var tail3 := DelegationOpen + d;
    var b := EscapeQuotes(backstory) + tail3;
    var tail2 := BackstoryOpen + b;
    var g := goal + tail2;
    var tail1 := GoalOpen + g;
    var r := EscapeQuotes(role) + tail1;
    var t := DefineAgent(agent, tool).value;
    assert t == name + (AgentOpen + r);
    VarNameHasNoSeparator(role);
    FirstSpaceAfter(name, AgentOpen + r);
    assert t[|name|..] == AgentOpen + r;
    ExpectPrefix(AgentOpen, r);
    ReadEscapeQuotes(role, tail1);
    ExpectPrefix(GoalOpen, g);
    ReadVerbatim(goal, tail2);
    ExpectPrefix(BackstoryOpen, b);
    ReadEscapeQuotes(backstory, tail3);
    ExpectPrefix(DelegationOpen, d);
    ReadDelegation(flag, tail4);
    ExpectPrefix(ToolsOpen, tail5);
    UnsuffixSuffix(tool, AgentClose);
  }

  /**
   * A task definition reads back as its record: `task_` and the derived name,
   * the whitespace-trimmed task through its escaping, and the agent's derived
   * name as the `agent=` argument.
   */
  lemma TaskDefinitionReadsBack(agent: Record)
    requires DefineTask(agent).Ok?
    requires AllLiteralSafe(PyStrip(agent["assigned_task"]))
    ensures ReadTaskDefinition(DefineTask(agent).value)
      == Some(TaskDecl(TaskVarName(agent["role"]), PyStrip(agent["assigned_task"]), VarName(agent["role"])))
  {
    var role, task := agent["role"], PyStrip(agent["assigned_task"]);
    var name := TaskVarName(role);
    var tail2 := VarName(role) + TaskClose;
    var tail1 := AgentRefOpen + tail2;
    var r := EscapeDoubleQuotes(task) + tail1;
    var t := DefineTask(agent).value;
    assert t == name + (TaskOpen + r);
    TaskVarNameShape(role);
    FirstSpaceAfter(name, TaskOpen + r);
    assert t[|name|..] == TaskOpen + r;
    ExpectPrefix(TaskOpen, r);
    ReadEscapeDoubleQuotes(task, tail1);
    ExpectPrefix(AgentRefOpen, tail2);
    UnsuffixSuffix(VarName(role), TaskClose);
  }

  /** The name an agent definition introduces is the derived name of its role. */
  lemma AgentDefinitionName(agent: Record, tool: string)
    requires DefineAgent(agent, tool).Ok?
    ensures DefinedName(DefineAgent(agent, tool).value) == VarName(agent["role"])
  {
    var name := VarName(agent["role"]);
    var t := DefineAgent(agent, tool).value;
    var rest := t[|name|..];
    assert t == name + rest;
    VarNameHasNoSeparator(agent["role"]);
    FirstSpaceAfter(name, rest);
  }

  lemma Regroup(a: string, b: string, c: string, q: string, s: string, k: string, r: string, z: string)
    ensures a + (b + (c + ((q + s + k) + (r + z)))) == ((a + b + c + q) + s + (k + r)) + z
  {
  }

  lemma AgentRefOpenPieces()
    ensures AgentRefOpen == "\",\n" + " " + "agent="
  {
  }

  lemma AgentArgumentHasNoSpace(ref: string)
    requires forall c :: c in ref ==> !IsSeparator(c)
    ensures ' ' !in "agent=" + ref
  {
    assert forall i :: 0 <= i < 6 ==> ("agent=" + ref)[i] != ' ';
  }

  /**
   * The name a task definition introduces is the task variable of its role, and
   * its `agent=` argument is the derived name of the same role, whatever the
   * description holds.
   */
  lemma TaskDefinitionNames(agent: Record)
    requires DefineTask(agent).Ok?
    ensures DefinedName(DefineTask(agent).value) == TaskVarName(agent["role"])
    ensures AgentReference(DefineTask(agent).value) == Some(VarName(agent["role"]))
  {
    var role := agent["role"];
    var name := TaskVarName(role);
    var desc := EscapeDoubleQuotes(PyStrip(agent["assigned_task"]));
    var t := DefineTask(agent).value;
    var ref := VarName(role);
    var rest := TaskOpen + (desc + (AgentRefOpen + (ref + TaskClose)));
    assert t == name + rest;
    TaskVarNameShape(role);
    FirstSpaceAfter(name, rest);
    var body := name + TaskOpen + desc + "\",\n";
    AgentRefOpenPieces();
    Regroup(name, TaskOpen, desc, "\",\n", " ", "agent=", ref, TaskClose);
    assert t == (body + " " + ("agent=" + ref)) + TaskClose;
    UnsuffixSuffix(body + " " + ("agent=" + ref), TaskClose);
    VarNameHasNoSeparator(role);
    AgentArgumentHasNoSpace(ref);
    AfterLastSpaceOf(body, "agent=" + ref);
    ExpectPrefix("agent=", ref);
  }

  /**
   * Cross-references in the script agree: the i-th entry of the crew's
   * `agents` list is the variable the i-th agent definition introduces and the
   * `agent=` argument of the i-th task definition, and the i-th entry of the
   * crew's `tasks` list is the variable the i-th task definition introduces.
   * Reading each list back gives exactly one entry per record.
   */
  lemma CrossReferencesAgree(agents: seq<Record>)
    requires |agents| > 0 && AllDefined(agents)
    ensures CrewAgents(agents).Ok? && CrewTasks(agents).Ok?
    ensures var names := SplitOn(CrewAgents(agents).value, ", ");
      var tasks := SplitOn(CrewTasks(agents).value, ", ");
      |names| == |agents| && |tasks| == |agents|
      && forall i :: 0 <= i < |agents| ==>
        DefinedName(DefineAgent(agents[i], SearchTool).value) == names[i]
        && AgentReference(DefineTask(agents[i]).value) == Some(names[i])
        && DefinedName(DefineTask(agents[i]).value) == tasks[i]
  {
    var names := RoleVarNames(agents).value;
    forall p | p in names ensures ' ' !in p {
      var i :| 0 <= i < |names| && names[i] == p;
      VarNameHasNoSeparator(agents[i]["role"]);
    }
    SplitOnJoinCommaSpace(names);
    var taskNames := Prefixed("task_", names);
    forall p | p in taskNames ensures ' ' !in p {
      var i :| 0 <= i < |taskNames| && taskNames[i] == p;
      TaskVarNameShape(agents[i]["role"]);
    }
    SplitOnJoinCommaSpace(taskNames);
    forall i | 0 <= i < |agents|
      ensures DefinedName(DefineAgent(agents[i], SearchTool).value) == names[i]
      ensures AgentReference(DefineTask(agents[i]).value) == Some(names[i])
      ensures DefinedName(DefineTask(agents[i]).value) == taskNames[i]
    {
      AgentDefinitionName(agents[i], SearchTool);
      TaskDefinitionNames(agents[i]);
    }
  }
}
