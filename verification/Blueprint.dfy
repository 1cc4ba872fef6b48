/** Agent blueprints as markdown with frontmatter: the printer and the line-by-line parser
    (src/agents/prompt_builder.rs). */
module Blueprint {
  import opened Text
  import opened Lines

  datatype AgentBlueprint = AgentBlueprint(
    roleName: string, reasoning: string, selectedSkills: seq<string>, allowedTools: seq<string>,
    systemPrompt: string, taskId: Option<string>)

  const DASHES: string := ['-', '-', '-']
  const ROLE_NAME: string := "role_name"
  const TASK_ID: string := "task_id"
  const CREATED_AT: string := "created_at"
  const REASONING: string := "reasoning"
  const SELECTED_SKILLS: string := "selected_skills"
  const ALLOWED_TOOLS: string := "allowed_tools"
  const CUSTOM_SPECIALIST: string := "custom_specialist"

  // ----- Printing

  function Escaped(s: string): string {
    if s == [] then []
    else (if s[0] == '"' then ['\\', '"'] else [s[0]]) + Escaped(s[1..])
  }

  function KeyLine(key: string, value: string): string { key + [':', ' ', '"'] + value + ['"'] }

  function ItemLine(item: string): string { [' ', ' ', '-', ' ', '"'] + item + ['"'] }

  function ItemLines(items: seq<string>): (ls: seq<string>)
    ensures |ls| == |items| && forall i | 0 <= i < |items| :: ls[i] == ItemLine(items[i])
  {
    seq(|items|, i requires 0 <= i < |items| => ItemLine(items[i]))
  }

  /** Lines separated by newlines. */
  function Join(ls: seq<string>): string {
    if ls == [] then [] else if |ls| == 1 then ls[0] else ls[0] + LF + Join(ls[1..])
  }

  function TaskIdText(b: AgentBlueprint): string { match b.taskId case None => [] case Some(id) => id }

  /** The file content; `createdAt` is the clock's contribution. */
  function Print(b: AgentBlueprint, createdAt: string): string {
    DASHES + LF
    + KeyLine(ROLE_NAME, b.roleName) + LF
    + KeyLine(TASK_ID, TaskIdText(b)) + LF
    + KeyLine(CREATED_AT, createdAt) + LF
    + KeyLine(REASONING, Escaped(b.reasoning)) + LF
    + SELECTED_SKILLS + [':'] + LF
    + Join(ItemLines(b.selectedSkills)) + LF
    + ALLOWED_TOOLS + [':'] + LF
    + Join(ItemLines(b.allowedTools)) + LF
    + DASHES + LF + LF
    + b.systemPrompt
  }

  // ----- Parsing

  datatype ListKind = NoList | Skills | Tools

  /** What the parser has read so far, and the list it is in. */
  datatype Front = Front(
    roleName: string, taskId: Option<string>, reasoning: string,
    skills: seq<string>, tools: seq<string>, list: ListKind)

  datatype Field = RoleField | TaskField | ReasoningField | SkillsField | ToolsField | OtherField

  function FieldOf(key: string): Field {
    if key == ROLE_NAME then RoleField
    else if key == TASK_ID then TaskField
    else if key == REASONING then ReasoningField
    else if key == SELECTED_SKILLS then SkillsField
    else if key == ALLOWED_TOOLS then ToolsField
    else OtherField
  }

  function SetField(st: Front, field: Field, value: string): Front {
    match field
    case RoleField => st.(roleName := value)
    case TaskField => if value == [] then st else st.(taskId := Some(value))
    case ReasoningField => st.(reasoning := value)
    case SkillsField => st.(list := Skills)
    case ToolsField => st.(list := Tools)
    case OtherField => st
  }

  function Push(st: Front, item: string): Front {
    if item == [] then st
    else match st.list
      case Skills => st.(skills := st.skills + [item])
      case Tools => st.(tools := st.tools + [item])
      case NoList => st
  }

  predicate IsBulletOrBlank(c: char) { c == '-' || c == '*' || c == ' ' }

  function Unquoted(s: string): string { TrimWhile(IsQuote, s) }

  /** A `key: value` line; any other line says nothing. */
  function ReadPair(st: Front, l: string): Front {
    match FindChar(l, ':', 0)
    case None => st
    case Some(i) => SetField(st, FieldOf(Lower(Trim(l[..i]))), Unquoted(Trim(l[i + 1..])))
  }

  /** One line: inside a list, bullets and lines without a colon are items; a line with a
      colon ends the list. */
  function ReadLine(st: Front, line: string): Front {
    var l := Trim(line);
    if l == [] then st
    else if st.list == NoList then ReadPair(st, l)
    else if l[0] == '-' || l[0] == '*' then Push(st, Unquoted(Trim(TrimStartWhile(IsBulletOrBlank, l))))
    else if FindChar(l, ':', 0) == None then Push(st, Unquoted(l))
    else ReadPair(st.(list := NoList), l)
  }

  function ReadLines(st: Front, lines: seq<string>): Front
    decreases |lines|
  {
    if lines == [] then st else ReadLines(ReadLine(st, lines[0]), lines[1..])
  }

  const START: Front := Front(CUSTOM_SPECIALIST, None, [], [], [], NoList)

  /** `None` stands for a text without frontmatter. */
  function ParseMarkdown(raw: string): Option<AgentBlueprint> {
    var trimmed := Trim(raw);
    if !OccursAt(trimmed, DASHES, 0) then None
    else
      var stripped := trimmed[3..];
      match Find(stripped, DASHES, 0)
      case None => None
      case Some(end) =>
        var st := ReadLines(START, LinesOf(stripped[..end]));
        Some(AgentBlueprint(st.roleName, st.reasoning, st.skills, st.tools, Trim(stripped[end + 3..]), st.taskId))
  }

  method ReadFrontmatter(frontmatter: string) returns (st: Front)
    ensures st == ReadLines(START, LinesOf(frontmatter))
  {
    hide FieldOf, Trim, Unquoted, TrimStartWhile, FindChar;
    var lines := LinesOf(frontmatter);
    st := START;
    for i := 0 to |lines|
      invariant ReadLines(st, lines[i..]) == ReadLines(START, lines)
    {
      assert lines[i..][1..] == lines[i + 1..];
      ghost var before := st;
      var l := Trim(lines[i]);
      if l == [] { continue; }
      if st.list != NoList {
        if l[0] == '-' || l[0] == '*' {
          st := Push(st, Unquoted(Trim(TrimStartWhile(IsBulletOrBlank, l))));
          continue;
        } else if FindChar(l, ':', 0) == None {
          st := Push(st, Unquoted(l));
          continue;
        } else {
          st := st.(list := NoList);
        }
      }
      var colon := FindChar(l, ':', 0);
      if colon.Some? {
        var key, value := Lower(Trim(l[..colon.value])), Unquoted(Trim(l[colon.value + 1..]));
        match FieldOf(key) {
          case RoleField => st := st.(roleName := value);
          case TaskField => if value != [] { st := st.(taskId := Some(value)); }
          case ReasoningField => st := st.(reasoning := value);
          case SkillsField => st := st.(list := Skills);
          case ToolsField => st := st.(list := Tools);
          case OtherField =>
        }
      }
      assert st == ReadLine(before, lines[i]);
    }
  }
}
