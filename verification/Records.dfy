/** The validation records of a prompts directory: what plan generation and ad-hoc
    delegation write (src/agents/prompt_builder.rs), and what the read gate concludes
    (src/agents/validation.rs).  The directory is a map from file names to files; whether
    a delete or a write succeeds is a parameter of each operation. */
module Records {
  import opened Text
  import opened TaskId
  import opened TrailingGroups
  import opened TaskLines
  import opened PlanDocument

  datatype File = Unreadable | Readable(text: string)

  /** File name to file; a name that is not a key is absent. */
  type Files = map<string, File>

  /** A write succeeds, is refused without effect, or fails leaving something behind. */
  datatype WriteOutcome = Written | Refused | Torn(rest: File)

  // ----- File names

  const MD: string := ".md"
  const VALIDATION: string := "-validation"
  const VALIDATION_SKIP: string := "-validation-skip"

  function PromptName(id: string): string { id + MD }

  function BriefName(id: string): string { id + VALIDATION + MD }

  function SkipName(id: string): string { id + VALIDATION_SKIP + MD }

  // ----- The write-side decision

  datatype WriteDecision = Brief | SkipRecord | Nothing

  function Decide(directive: Directive, agent: Agent): WriteDecision {
    if directive == NoValidate then SkipRecord
    else if agent == Planner || agent == Validator then Nothing
    else Brief
  }

  datatype PlanTaskItem = PlanTaskItem(
    taskId: string, description: string, roleHint: Option<string>, validationDirective: Directive)

  /** The pending tasks of a plan that carry an id. */
  function ItemsOf(tasks: seq<TaskLine>): seq<PlanTaskItem> {
    if tasks == [] then []
    else
      var t := tasks[0];
      (if t.checkbox == Unchecked && t.taskId.Some?
       then [PlanTaskItem(t.taskId.value, t.descriptionBody, t.roleHint, t.validationDirective)] else [])
      + ItemsOf(tasks[1..])
  }

  function ParseTasksFromPlan(markdown: string): seq<PlanTaskItem> { ItemsOf(ParseTasks(markdown)) }

  function AgentOf(item: PlanTaskItem): Agent {
    match item.roleHint
    case None => Coder
    case Some(hint) => match AgentFromStr(hint) case Some(a) => a case None => Coder
  }

  // ----- Single effects on the directory

  function AfterWrite(files: Files, name: string, text: string, outcome: WriteOutcome): Files {
    match outcome
    case Written => files[name := Readable(text)]
    case Refused => files
    case Torn(rest) => files[name := rest]
  }

  function AfterDelete(files: Files, name: string, succeeds: bool): Files {
    if succeeds then files - {name} else files
  }

  /** One elementary action of a run, with the outcomes of its file operations. */
  datatype Action =
    | SavePrompt(id: string, text: string, write: WriteOutcome)
    | DecideSkip(id: string, reason: string, deletes: bool, write: WriteOutcome)
    | DecideBrief(id: string, text: string, deletes: bool, write: WriteOutcome)

  /** A skip decision writes no record while a stale brief cannot be deleted; a brief
      decision deletes a stale skip record first and goes on in any case. */
  function Apply(files: Files, a: Action): Files {
    match a
    case SavePrompt(id, text, write) => AfterWrite(files, PromptName(id), text, write)
    case DecideSkip(id, reason, deletes, write) =>
      if !deletes then files
      else AfterWrite(files - {BriefName(id)}, SkipName(id), reason + ['\n'], write)
    case DecideBrief(id, text, deletes, write) =>
      AfterWrite(AfterDelete(files, SkipName(id), deletes), BriefName(id), text, write)
  }

  function ApplyAll(files: Files, actions: seq<Action>): Files {
    if actions == [] then files else Apply(ApplyAll(files, actions[..|actions| - 1]), actions[|actions| - 1])
  }

  // ----- What the two writers do, as actions

  const REASON_PLAN: string := "Plan directive " + "(no-validate): " + "validation not required"
  const REASON_ADHOC: string := "Ad-hoc delegated task " + "(no plan line): " + "validation not required"

  /** Texts and outcomes the environment supplies while one plan item is processed. */
  datatype ItemIo = ItemIo(
    prompt: string, savePrompt: WriteOutcome, brief: string, deletes: bool, write: WriteOutcome)

  function ActionsOf(item: PlanTaskItem, io: ItemIo): seq<Action> {
    (match ValidateTaskId(Normalize(item.taskId))
     case Accepted(id) => [SavePrompt(id, io.prompt, io.savePrompt)]
     case Rejected(_) => [])
    + (match (ValidateTaskId(item.taskId), Decide(item.validationDirective, AgentOf(item)))
       case (Accepted(id), SkipRecord) => [DecideSkip(id, REASON_PLAN, io.deletes, io.write)]
       case (Accepted(id), Brief) => [DecideBrief(id, io.brief, io.deletes, io.write)]
       case _ => [])
  }

  function ActionsOfPlan(items: seq<PlanTaskItem>, io: nat -> ItemIo): seq<Action> {
    if items == [] then []
    else ActionsOfPlan(items[..|items| - 1], io) + ActionsOf(items[|items| - 1], io(|items| - 1))
  }

  /** An ad-hoc record is authored only for an acceptable id of a validated role that no
      line of the active plan owns. */
  function ActionsOfAdhoc(
      rawId: string, agent: Agent, plan: Option<string>, deletes: bool, write: WriteOutcome): seq<Action> {
    match ValidateTaskId(Normalize(rawId))
    case Rejected(_) => []
    case Accepted(id) =>
      if agent == Planner || agent == Validator then []
      else if plan.Some? && FindTaskLine(plan.value, id).Some? then []
      else [DecideSkip(id, REASON_ADHOC, deletes, write)]
  }

  /** The file names an action reports as generated. */
  function Generates(files: Files, a: Action): seq<string> {
    match a
    case SavePrompt(id, _, write) => if write == Written then [PromptName(id)] else []
    case DecideSkip(id, _, deletes, write) =>
      if !deletes || write != Written then [] else [SkipName(id)]
    case DecideBrief(id, _, _, write) => if write == Written then [BriefName(id)] else []
  }

  function GeneratesAll(files: Files, actions: seq<Action>): seq<string> {
    if actions == [] then []
    else
      var init := actions[..|actions| - 1];
      GeneratesAll(files, init) + Generates(ApplyAll(files, init), actions[|actions| - 1])
  }

  datatype BriefDeletion = Removed | NothingThere | CouldNotDelete

  lemma ApplySnoc(files: Files, init: seq<Action>, last: Action)
    ensures ApplyAll(files, init + [last]) == Apply(ApplyAll(files, init), last)
    ensures GeneratesAll(files, init + [last]) ==
            GeneratesAll(files, init) + Generates(ApplyAll(files, init), last)
  {
    hide Apply, Generates;
    assert (init + [last])[..|init|] == init;
  }

  lemma {:induction false} ApplyAppend(files: Files, a: seq<Action>, b: seq<Action>)
    ensures ApplyAll(files, a + b) == ApplyAll(ApplyAll(files, a), b)
    ensures GeneratesAll(files, a + b) == GeneratesAll(files, a) + GeneratesAll(ApplyAll(files, a), b)
    decreases |b|
  {
    if b == [] {
      hide Apply, Generates;
      assert a + b == a;
    } else {
      hide *;
      var n := |b| - 1;
      var init, last := b[..n], b[n];
      assert b == init + [last] && a + b == (a + init) + [last];
      ApplyAppend(files, a, init);
      ApplySnoc(files, a + init, last);
      ApplySnoc(ApplyAll(files, a), init, last);
    }
  }

  lemma ApplyOne(files: Files, a: Action)
    ensures ApplyAll(files, [a]) == Apply(files, a) && ApplyAll(files, []) == files
    ensures GeneratesAll(files, [a]) == Generates(files, a) && GeneratesAll(files, []) == []
  {
    hide Apply, Generates;
    assert [a][..0] == [];
  }

  /** The prompts directory. */
  class PromptsDir {
    var files: Files

    constructor ()
      ensures files == map[]
    {
      files := map[];
    }

    method Write(name: string, text: string, outcome: WriteOutcome)
      modifies this
      ensures files == AfterWrite(old(files), name, text, outcome)
    {
      match outcome {
        case Written => files := files[name := Readable(text)];
        case Refused =>
        case Torn(rest) => files := files[name := rest];
      }
    }

    /** Best effort: a failure is not reported to the caller. */
    method DeleteStaleSkipRecord(rawId: string, succeeds: bool)
      modifies this
      ensures ValidateTaskId(rawId).Rejected? ==> files == old(files)
      ensures ValidateTaskId(rawId).Accepted? ==> files == AfterDelete(old(files), SkipName(rawId), succeeds)
    {
      hide Trim, Scan, Contains;
      match ValidateTaskId(rawId) {
        case Rejected(_) =>
        case Accepted(id) =>
          AcceptsExactlyTheGrammar(rawId);
          if SkipName(id) in files && succeeds { files := files - {SkipName(id)}; }
          assert SkipName(id) !in old(files) ==> old(files) - {SkipName(id)} == old(files);
      }
    }

    /** `succeeds` is false when the delete ends in an error other than "not found". */
    method DeleteStaleBrief(rawId: string, succeeds: bool) returns (r: BriefDeletion)
      modifies this
      ensures r == CouldNotDelete ==> files == old(files)
      ensures ValidateTaskId(rawId).Rejected? ==> r == NothingThere && files == old(files)
      ensures ValidateTaskId(rawId).Accepted? ==>
                && (r == CouldNotDelete <==> !succeeds)
                && (r == Removed <==> BriefName(rawId) in old(files) && succeeds)
                && (r != CouldNotDelete ==> files == old(files) - {BriefName(rawId)})
    {
      hide Trim, Scan, Contains;
      match ValidateTaskId(rawId) {
        case Rejected(_) => r := NothingThere;
        case Accepted(id) =>
          AcceptsExactlyTheGrammar(rawId);
          if !succeeds {
            r := CouldNotDelete;
          } else if BriefName(id) in files {
            files := files - {BriefName(id)};
            r := Removed;
          } else {
            r := NothingThere;
            assert files - {BriefName(id)} == files;
          }
      }
    }

    method WriteSkipRecord(rawId: string, reason: string, outcome: WriteOutcome) returns (name: Option<string>)
      modifies this
      ensures ValidateTaskId(rawId).Rejected? ==> name == None && files == old(files)
      ensures ValidateTaskId(rawId).Accepted? ==>
                && files == AfterWrite(old(files), SkipName(rawId), reason + ['\n'], outcome)
                && name == (if outcome == Written then Some(SkipName(rawId)) else None)
    {
      hide Trim, Scan, Contains;
      name := None;
      match ValidateTaskId(rawId) {
        case Rejected(_) =>
        case Accepted(id) =>
          AcceptsExactlyTheGrammar(rawId);
          Write(SkipName(id), reason + ['\n'], outcome);
          if outcome == Written { name := Some(SkipName(id)); }
      }
    }

    /** Pre-generate the records of every pending task of a plan. */
    method PregenerateForPlan(markdown: string, io: nat -> ItemIo) returns (generated: seq<string>)
      modifies this
      ensures files == ApplyAll(old(files), ActionsOfPlan(ParseTasksFromPlan(markdown), io))
      ensures generated == GeneratesAll(old(files), ActionsOfPlan(ParseTasksFromPlan(markdown), io))
    {
      hide ParseTasksFromPlan, ValidateTaskId, Normalize, AgentOf, Decide, Apply, AfterWrite, AfterDelete;
      var items := ParseTasksFromPlan(markdown);
      generated := [];
      for n := 0 to |items|
        invariant files == ApplyAll(old(files), ActionsOfPlan(items[..n], io))
        invariant generated == GeneratesAll(old(files), ActionsOfPlan(items[..n], io))
      {
        var names := ProcessItem(items[n], io(n));
        generated := generated + names;
        assert items[..n + 1][..n] == items[..n];
        ApplyAppend(old(files), ActionsOfPlan(items[..n], io), ActionsOf(items[n], io(n)));
      }
      assert items[..|items|] == items;
    }

    /** One item of the plan: its prompt, then its record. */
    method ProcessItem(item: PlanTaskItem, io: ItemIo) returns (names: seq<string>)
      modifies this
      ensures files == ApplyAll(old(files), ActionsOf(item, io))
      ensures names == GeneratesAll(old(files), ActionsOf(item, io))
    {
      hide ValidateTaskId, Normalize, AgentOf, Decide, AfterWrite;
      names := [];
      var stem := ValidateTaskId(Normalize(item.taskId));
      ghost var first: seq<Action> := [];
      if stem.Accepted? {
        Write(PromptName(stem.id), io.prompt, io.savePrompt);
        if io.savePrompt == Written { names := names + [PromptName(stem.id)]; }
        first := [SavePrompt(stem.id, io.prompt, io.savePrompt)];
        ApplyOne(old(files), first[0]);
      }
      assert files == ApplyAll(old(files), first) && names == GeneratesAll(old(files), first);
      ghost var firstNames := names;
      label AfterPrompt:
      var valid := ValidateTaskId(item.taskId);
      AcceptsExactlyTheGrammar(item.taskId);
      match Decide(item.validationDirective, AgentOf(item)) {
        case Nothing =>
          assert ActionsOf(item, io) == first + [];
        case SkipRecord =>
          var deletion := DeleteStaleBrief(item.taskId, io.deletes);
          if deletion != CouldNotDelete {
            var name := WriteSkipRecord(item.taskId, REASON_PLAN, io.write);
            if name.Some? { names := names + [name.value]; }
          }
          if valid.Accepted? {
            var a := DecideSkip(valid.id, REASON_PLAN, io.deletes, io.write);
            assert files == Apply(old@AfterPrompt(files), a);
            ApplyOne(old@AfterPrompt(files), a);
            ApplyAppend(old(files), first, [a]);
          } else {
            assert ActionsOf(item, io) == first + [];
          }
        case Brief =>
          if valid.Accepted? {
            DeleteStaleSkipRecord(item.taskId, io.deletes);
            Write(BriefName(valid.id), io.brief, io.write);
            if io.write == Written { names := names + [BriefName(valid.id)]; }
            var a := DecideBrief(valid.id, io.brief, io.deletes, io.write);
            assert files == Apply(old@AfterPrompt(files), a);
            ApplyOne(old@AfterPrompt(files), a);
            ApplyAppend(old(files), first, [a]);
          } else {
            assert ActionsOf(item, io) == first + [];
          }
      }
    }

    /** The record of a delegated task that has no plan line. */
    method RecordAdhoc(rawId: string, agent: Agent, plan: Option<string>, deletes: bool, write: WriteOutcome)
      returns (name: Option<string>)
      modifies this
      ensures files == ApplyAll(old(files), ActionsOfAdhoc(rawId, agent, plan, deletes, write))
      ensures (if name.Some? then [name.value] else [])
              == GeneratesAll(old(files), ActionsOfAdhoc(rawId, agent, plan, deletes, write))
    {
      hide ValidateTaskId, Normalize, FindTaskLine, AfterDelete;
      name := None;
      var id := Normalize(rawId);
      ghost var a := DecideSkip(id, REASON_ADHOC, deletes, write);
      ApplyOne(files, a);
      AcceptsExactlyTheGrammar(id);
      if ValidateTaskId(id).Rejected? { return; }
      if agent == Planner || agent == Validator { return; }
      if plan.Some? && FindTaskLine(plan.value, id).Some? { return; }
      var deletion := DeleteStaleBrief(id, deletes);
      if deletion == CouldNotDelete { return; }
      name := WriteSkipRecord(id, REASON_ADHOC, write);
      assert files == Apply(old(files), a);
    }
  }
}
