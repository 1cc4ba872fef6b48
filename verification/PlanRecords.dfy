/** Which records plan generation and ad-hoc delegation author, line by line of the plan
    (src/agents/prompt_builder.rs), and what the read gate makes of the files
    (src/agents/validation.rs). */
module PlanRecords {
  import opened Text
  import opened TaskId
  import opened TrailingGroups
  import opened TaskLines
  import opened Lines
  import opened PlanDocument
  import opened LineForms
  import opened Ownership
  import opened Records
  import opened RecordLifecycle

  // ----- What a line of the plan asks for

  /** The role named on the line is never validated. */
  predicate IsExempt(hint: Option<string>) {
    hint.Some? && (Lower(Trim(hint.value)) == "planner" || Lower(Trim(hint.value)) == "validator")
  }

  /** A pending line of the task. */
  predicate IsOpenLine(t: TaskLine, id: string) { t.checkbox == Unchecked && t.taskId == Some(id) }

  predicate WantsSkip(t: TaskLine, id: string) { IsOpenLine(t, id) && t.validationDirective == NoValidate }

  predicate WantsBrief(t: TaskLine, id: string) {
    IsOpenLine(t, id) && t.validationDirective != NoValidate && !IsExempt(t.roleHint)
  }

  lemma ExemptAgents(item: PlanTaskItem)
    ensures (AgentOf(item) == Planner || AgentOf(item) == Validator) <==> IsExempt(item.roleHint)
  {
    hide Lower, Trim, AgentFromStr;
    if item.roleHint.Some? { ArchetypesExactly(item.roleHint.value); }
  }

  // ----- The actions of one pending line

  function ItemOf(t: TaskLine): PlanTaskItem
    requires t.taskId.Some?
  {
    PlanTaskItem(t.taskId.value, t.descriptionBody, t.roleHint, t.validationDirective)
  }

  /** The line's id is its own normal form, as every id read off a plan is. */
  predicate HasPlainId(t: TaskLine) { t.taskId.Some? ==> Normalize(t.taskId.value) == t.taskId.value }

  /** What a pending line makes the generation do: its prompt first, then at most one record. */
  lemma LineActions(t: TaskLine, io: ItemIo)
    requires t.checkbox == Unchecked && t.taskId.Some? && HasPlainId(t)
    ensures var id := t.taskId.value;
            ActionsOf(ItemOf(t), io) ==
            (if ValidateTaskId(id).Accepted? then [SavePrompt(id, io.prompt, io.savePrompt)] else [])
            + (if ValidateTaskId(id).Rejected? then []
               else if WantsSkip(t, id) then [DecideSkip(id, REASON_PLAN, io.deletes, io.write)]
               else if WantsBrief(t, id) then [DecideBrief(id, io.brief, io.deletes, io.write)]
               else [])
  {
    hide Trim, Lower, Scan, Contains, AgentOf, IsExempt, Normalize, ValidateTaskId;
    AcceptsExactlyTheGrammar(t.taskId.value);
    ExemptAgents(ItemOf(t));
  }

  lemma {:induction false} ItemsSnoc(tasks: seq<TaskLine>, t: TaskLine)
    ensures ItemsOf(tasks + [t]) ==
            ItemsOf(tasks) + (if t.checkbox == Unchecked && t.taskId.Some? then [ItemOf(t)] else [])
    decreases |tasks|
  {
    if tasks == [] {
      assert tasks + [t] == [t] && [t][1..] == [];
    } else {
      assert (tasks + [t])[1..] == tasks[1..] + [t];
      ItemsSnoc(tasks[1..], t);
    }
  }

  lemma PlanActionsSnoc(items: seq<PlanTaskItem>, item: PlanTaskItem, io: nat -> ItemIo)
    ensures ActionsOfPlan(items + [item], io) == ActionsOfPlan(items, io) + ActionsOf(item, io(|items|))
  {
    hide ActionsOf;
    assert (items + [item])[..|items|] == items;
  }

  /** The `n`-th pending line with an id, its outcomes and its actions. */
  lemma TaskActionsSnoc(tasks: seq<TaskLine>, t: TaskLine, io: nat -> ItemIo)
    requires HasPlainId(t)
    ensures var n := |ItemsOf(tasks)|;
            ActionsOfPlan(ItemsOf(tasks + [t]), io) == ActionsOfPlan(ItemsOf(tasks), io)
              + (if t.checkbox == Unchecked && t.taskId.Some? then ActionsOf(ItemOf(t), io(n)) else [])
  {
    hide ActionsOf, ActionsOfPlan, ItemsOf, Normalize, HasPlainId;
    ItemsSnoc(tasks, t);
    if t.checkbox == Unchecked && t.taskId.Some? { PlanActionsSnoc(ItemsOf(tasks), ItemOf(t), io); }
    assert ItemsOf(tasks) + [] == ItemsOf(tasks);
  }

  // ----- The actions of a plan

  ghost predicate SavesPrompt(actions: seq<Action>, io: nat -> ItemIo, id: string) {
    exists n: nat :: SavePrompt(id, io(n).prompt, io(n).savePrompt) in actions
  }

  ghost predicate AttemptsSkip(actions: seq<Action>, io: nat -> ItemIo, id: string) {
    exists n: nat :: DecideSkip(id, REASON_PLAN, io(n).deletes, io(n).write) in actions
  }

  ghost predicate AttemptsBrief(actions: seq<Action>, io: nat -> ItemIo, id: string) {
    exists n: nat :: DecideBrief(id, io(n).brief, io(n).deletes, io(n).write) in actions
  }

  /** An action is one of the three, with the texts and outcomes of one line. */
  ghost predicate IsOneOf(a: Action, io: nat -> ItemIo) {
    exists n: nat ::
      || a == SavePrompt(a.id, io(n).prompt, io(n).savePrompt)
      || a == DecideSkip(a.id, REASON_PLAN, io(n).deletes, io(n).write)
      || a == DecideBrief(a.id, io(n).brief, io(n).deletes, io(n).write)
  }

  /** What the actions of a list of tasks are, id by id. */
  ghost predicate ActsExactly(tasks: seq<TaskLine>, io: nat -> ItemIo, actions: seq<Action>, id: string) {
    && (SavesPrompt(actions, io, id) <==> ValidateTaskId(id).Accepted? && exists t :: t in tasks && IsOpenLine(t, id))
    && (AttemptsSkip(actions, io, id) <==> ValidateTaskId(id).Accepted? && exists t :: t in tasks && WantsSkip(t, id))
    && (AttemptsBrief(actions, io, id) <==> ValidateTaskId(id).Accepted? && exists t :: t in tasks && WantsBrief(t, id))
  }

  /** The actions one more line adds, seen from one id. */
  lemma OneMoreLine(t: TaskLine, io: nat -> ItemIo, n: nat, more: seq<Action>, id: string)
    requires HasPlainId(t)
    requires more == if t.checkbox == Unchecked && t.taskId.Some? then ActionsOf(ItemOf(t), io(n)) else []
    ensures SavesPrompt(more, io, id) <==> ValidateTaskId(id).Accepted? && IsOpenLine(t, id)
    ensures AttemptsSkip(more, io, id) <==> ValidateTaskId(id).Accepted? && WantsSkip(t, id)
    ensures AttemptsBrief(more, io, id) <==> ValidateTaskId(id).Accepted? && WantsBrief(t, id)
    ensures forall a | a in more :: IsOneOf(a, io)
  {
    hide ActionsOf, ValidateTaskId, Normalize, HasPlainId, IsExempt;
    if t.checkbox == Unchecked && t.taskId.Some? {
      LineActions(t, io(n));
      var own := t.taskId.value;
      if own == id && ValidateTaskId(id).Accepted? {
        assert SavePrompt(id, io(n).prompt, io(n).savePrompt) in more;
        assert WantsSkip(t, id) ==> DecideSkip(id, REASON_PLAN, io(n).deletes, io(n).write) in more;
        assert WantsBrief(t, id) ==> DecideBrief(id, io(n).brief, io(n).deletes, io(n).write) in more;
      }
    }
  }

  lemma AttemptsTogether(a: seq<Action>, b: seq<Action>, io: nat -> ItemIo, id: string)
    ensures SavesPrompt(a + b, io, id) <==> SavesPrompt(a, io, id) || SavesPrompt(b, io, id)
    ensures AttemptsSkip(a + b, io, id) <==> AttemptsSkip(a, io, id) || AttemptsSkip(b, io, id)
    ensures AttemptsBrief(a + b, io, id) <==> AttemptsBrief(a, io, id) || AttemptsBrief(b, io, id)
  {
    assert forall x :: x in a + b <==> x in a || x in b;
  }

  lemma ActsOneMore(
      tasks: seq<TaskLine>, t: TaskLine, io: nat -> ItemIo, actions: seq<Action>, more: seq<Action>, id: string)
    requires ActsExactly(tasks, io, actions, id)
    requires SavesPrompt(more, io, id) <==> ValidateTaskId(id).Accepted? && IsOpenLine(t, id)
    requires AttemptsSkip(more, io, id) <==> ValidateTaskId(id).Accepted? && WantsSkip(t, id)
    requires AttemptsBrief(more, io, id) <==> ValidateTaskId(id).Accepted? && WantsBrief(t, id)
    ensures ActsExactly(tasks + [t], io, actions + more, id)
  {
    hide ValidateTaskId, IsOpenLine, WantsSkip, WantsBrief, SavesPrompt, AttemptsSkip, AttemptsBrief;
    AttemptsTogether(actions, more, io, id);
    assert forall x :: x in tasks + [t] <==> x in tasks || x == t;
  }

  lemma {:induction false} TasksAct(tasks: seq<TaskLine>, io: nat -> ItemIo, id: string)
    requires forall t | t in tasks :: HasPlainId(t)
    ensures ActsExactly(tasks, io, ActionsOfPlan(ItemsOf(tasks), io), id)
    ensures forall a | a in ActionsOfPlan(ItemsOf(tasks), io) :: IsOneOf(a, io)
    decreases |tasks|
  {
    if tasks != [] {
      var init, t := tasks[..|tasks| - 1], tasks[|tasks| - 1];
      assert tasks == init + [t] && t in tasks;
      assert forall x | x in init :: x in tasks;
      hide *;
      TasksAct(init, io, id);
      TaskActionsSnoc(init, t, io);
      var n := |ItemsOf(init)|;
      var more := if t.checkbox == Unchecked && t.taskId.Some? then ActionsOf(ItemOf(t), io(n)) else [];
      OneMoreLine(t, io, n, more, id);
      ActsOneMore(init, t, io, ActionsOfPlan(ItemsOf(init), io), more, id);
    }
  }

  /** Ids read off a plan are plain. */
  lemma PlanIdsArePlain(markdown: string)
    ensures forall t | t in ParseTasks(markdown) :: HasPlainId(t)
  {
    hide LinesOf, TasksUpTo, ParseTaskLineAt, Normalize;
    var lines := LinesOf(markdown);
    forall t | t in ParseTasks(markdown) ensures HasPlainId(t) {
      TasksAreParsedLines(lines, |lines|, t);
      var k :| 0 <= k < |lines| && ParseTaskLineAt(lines[k], k) == Some(t);
      if t.taskId.Some? { ParsedIdIsToken(lines[k], k); }
    }
  }

  /** Generating the records of a plan saves a prompt for every acceptable id with a pending line;
      it attempts a brief exactly for those with a pending line that is not `(no-validate)` and
      names neither the planner nor the validator, and a skip record exactly for those with a
      pending `(no-validate)` line; and it does nothing else. */
  lemma PlanActionsExactly(markdown: string, io: nat -> ItemIo, id: string)
    ensures var actions := ActionsOfPlan(ParseTasksFromPlan(markdown), io);
            && ActsExactly(ParseTasks(markdown), io, actions, id)
            && forall a | a in actions :: IsOneOf(a, io)
  {
    hide ActsExactly, ActionsOfPlan, ItemsOf, ParseTasks, HasPlainId, IsOneOf;
    PlanIdsArePlain(markdown);
    TasksAct(ParseTasks(markdown), io, id);
  }

  // ----- The last word on an id

  /** The last line of the plan that decides for the id. */
  ghost predicate HasLastWord(tasks: seq<TaskLine>, k: nat, id: string) {
    && k < |tasks| && (WantsSkip(tasks[k], id) || WantsBrief(tasks[k], id))
    && forall j | k < j < |tasks| :: !WantsSkip(tasks[j], id) && !WantsBrief(tasks[j], id)
  }

  lemma DecisionSnoc(actions: seq<Action>, a: Action, id: string)
    ensures LastDecision(actions + [a], id) ==
            if Decides(a, id) then (if a.DecideSkip? then LastSkip else LastBrief) else LastDecision(actions, id)
  {
    assert (actions + [a])[..|actions|] == actions;
  }

  lemma DecisionOfLine(actions: seq<Action>, t: TaskLine, io: ItemIo, id: string)
    requires t.checkbox == Unchecked && t.taskId.Some? && HasPlainId(t) && ValidateTaskId(id).Accepted?
    ensures LastDecision(actions + ActionsOf(ItemOf(t), io), id) ==
            if WantsSkip(t, id) then LastSkip else if WantsBrief(t, id) then LastBrief else LastDecision(actions, id)
  {
    hide ActionsOf, ValidateTaskId, Normalize, HasPlainId, IsExempt, LastDecision;
    LineActions(t, io);
    var own, more := t.taskId.value, ActionsOf(ItemOf(t), io);
    if more == [] {
      assert actions + more == actions;
    } else if |more| == 1 {
      assert more == [more[0]];
      DecisionSnoc(actions, more[0], id);
    } else {
      assert actions + more == (actions + [more[0]]) + [more[1]];
      DecisionSnoc(actions, more[0], id);
      DecisionSnoc(actions + [more[0]], more[1], id);
    }
  }

  lemma {:induction false} LastWordOfTasks(tasks: seq<TaskLine>, io: nat -> ItemIo, id: string)
    requires (forall t | t in tasks :: HasPlainId(t)) && ValidateTaskId(id).Accepted?
    ensures var last := LastDecision(ActionsOfPlan(ItemsOf(tasks), io), id);
            if exists k: nat :: HasLastWord(tasks, k, id) then
              exists k: nat ::
                HasLastWord(tasks, k, id) && last == if WantsSkip(tasks[k], id) then LastSkip else LastBrief
            else last == Undecided
    decreases |tasks|
  {
    hide ActionsOf, ActionsOfPlan, ItemsOf, LastDecision, ValidateTaskId, HasPlainId, WantsSkip, WantsBrief, Normalize;
    if tasks == [] {
      NothingDecided(io, id);
    } else {
      var n, init, t := |tasks| - 1, tasks[..|tasks| - 1], tasks[|tasks| - 1];
      assert tasks == init + [t] && t in tasks;
      assert forall x | x in init :: x in tasks;
      LastWordOfTasks(init, io, id);
      TaskActionsSnoc(init, t, io);
      var before := ActionsOfPlan(ItemsOf(init), io);
      if t.checkbox == Unchecked && t.taskId.Some? { DecisionOfLine(before, t, io(|ItemsOf(init)|), id); }
      assert before + [] == before;
      LineDecides(t, id);
      if WantsSkip(t, id) || WantsBrief(t, id) {
        assert HasLastWord(tasks, n, id);
      } else {
        forall k: nat ensures HasLastWord(tasks, k, id) <==> HasLastWord(init, k, id) { LastWordBefore(tasks, k, id); }
      }
    }
  }

  lemma NothingDecided(io: nat -> ItemIo, id: string)
    ensures LastDecision(ActionsOfPlan(ItemsOf([]), io), id) == Undecided
  {}

  lemma LineDecides(t: TaskLine, id: string)
    ensures WantsSkip(t, id) || WantsBrief(t, id) ==> t.checkbox == Unchecked && t.taskId.Some?
    ensures !(WantsSkip(t, id) && WantsBrief(t, id))
  {}

  lemma LastWordBefore(tasks: seq<TaskLine>, k: nat, id: string)
    requires tasks != [] && !WantsSkip(tasks[|tasks| - 1], id) && !WantsBrief(tasks[|tasks| - 1], id)
    ensures HasLastWord(tasks, k, id) <==> HasLastWord(tasks[..|tasks| - 1], k, id)
  {
    hide WantsSkip, WantsBrief;
    var init := tasks[..|tasks| - 1];
    assert forall j | 0 <= j < |init| :: init[j] == tasks[j];
  }

  /** Of several lines of one task the last one that decides has the last word: the run ends on
      its decision, and on none when no pending line of the task asks for a record. */
  lemma LastWordDecides(markdown: string, io: nat -> ItemIo, id: string)
    requires ValidateTaskId(id).Accepted?
    ensures var tasks, last := ParseTasks(markdown), LastDecision(ActionsOfPlan(ParseTasksFromPlan(markdown), io), id);
            if exists k: nat :: HasLastWord(tasks, k, id) then
              exists k: nat ::
                HasLastWord(tasks, k, id) && last == if WantsSkip(tasks[k], id) then LastSkip else LastBrief
            else last == Undecided
  {
    hide ActionsOfPlan, ItemsOf, ParseTasks, HasPlainId, HasLastWord, LastDecision, ValidateTaskId, WantsSkip;
    PlanIdsArePlain(markdown);
    LastWordOfTasks(ParseTasks(markdown), io, id);
  }

  // ----- Ad-hoc records

  /** A delegated task gets a skip record exactly when its id is acceptable, its role is validated
      and no line of the active plan owns the id; otherwise nothing is done. */
  lemma AdhocExactlyWhen(rawId: string, agent: Agent, plan: Option<string>, deletes: bool, write: WriteOutcome)
    ensures ActionsOfAdhoc(rawId, agent, plan, deletes, write) ==
            if ValidateTaskId(Normalize(rawId)).Accepted? && agent != Planner && agent != Validator
               && (plan.Some? ==> var lines := LinesOf(plan.value);
                                  forall k | 0 <= k < |lines| :: !Owns(TaskAt(lines, k), Key(rawId)))
            then [DecideSkip(Normalize(rawId), REASON_ADHOC, deletes, write)] else []
  {
    hide ValidateTaskId, Normalize, TaskAt, LinesOf, Owns, FirstOwner, TasksUpTo;
    var id := Normalize(rawId);
    AcceptsExactlyTheGrammar(id);
    if ValidateTaskId(id).Accepted? {
      AcceptedIsNormalized(id);
      AcceptedKey(rawId);
      if plan.Some? {
        var lines := LinesOf(plan.value);
        OwnerIsFirst(lines, |lines|, id);
      }
    }
  }

  lemma AcceptedKey(rawId: string)
    requires ValidateTaskId(Normalize(rawId)).Accepted?
    ensures Key(Normalize(rawId)) == Key(rawId) && Key(rawId) != [] && Normalize(rawId) != []
  {
    var id := Normalize(rawId);
    AcceptedIsNormalized(id);
    assert id != [] by {
      hide Normalize;
      if id == [] { TrimWhileUnique(IsWhitespace, id, [], [], []); }
    }
    hide ValidateTaskId, Normalize;
  }

  // ----- The read gate

  /** The brief of the id is readable and says this. */
  ghost predicate HasBrief(files: Files, id: string, text: string) {
    BriefName(id) in files && files[BriefName(id)] == Readable(text) && Trim(text) != []
  }

  /** What automated validation does before it contacts anyone: an unacceptable id is a gap; a
      brief that is there is audited; without one the skip record counts only if the brief was
      never written, and where there is a prompts directory anything else is a gap. */
  lemma GateExactly(files: Files, dirExists: bool, rawId: string)
    ensures var id, gate := Normalize(rawId), GateOf(files, dirExists, Some(rawId));
            && (gate.RejectedId? <==> ValidateTaskId(id).Rejected?)
            && (gate.RejectedId? ==> gate.error == ValidateTaskId(id).error)
            && (ValidateTaskId(id).Accepted? ==>
                  && (forall text :: gate == Audit(Some(text)) <==> HasBrief(files, id, text))
                  && (gate == Audit(None) <==> !dirExists && forall text :: !HasBrief(files, id, text))
                  && (gate == NotValidated <==>
                        dirExists && !Skips(files, id) && forall text :: !HasBrief(files, id, text))
                  && (gate.SkippedByDesign? <==> dirExists && Skips(files, id))
                  && (gate.SkippedByDesign? ==> gate.reason == Trim(files[SkipName(id)].text)))
  {
    hide Trim, Normalize, Scan, Contains;
    var id := Normalize(rawId);
    AcceptsExactlyTheGrammar(id);
    if ValidateTaskId(id).Accepted? {
      AcceptedIsNormalized(id);
      hide ValidateTaskId, BriefName, SkipName;
      if BriefName(id) in files && files[BriefName(id)].Readable? {
        assert forall text :: HasBrief(files, id, text) ==> text == files[BriefName(id)].text;
      }
    }
  }

  // ----- The names reported

  /** The action wrote a file, and this is its name. */
  predicate Wrote(a: Action, name: string) {
    && a.write == Written
    && match a
       case SavePrompt(id, _, _) => name == id + ".md"
       case DecideSkip(id, _, deletes, _) => deletes && name == id + "-validation-skip.md"
       case DecideBrief(id, _, _, _) => name == id + "-validation.md"
  }

  /** The names reported as generated are those of the files that were written. */
  lemma {:induction false} GeneratedExactly(files: Files, actions: seq<Action>, name: string)
    ensures name in GeneratesAll(files, actions) <==> exists a :: a in actions && Wrote(a, name)
    decreases |actions|
  {
    if actions != [] {
      var init, a := actions[..|actions| - 1], actions[|actions| - 1];
      assert actions == init + [a];
      GeneratedExactly(files, init, name);
      GeneratesExactly(ApplyAll(files, init), a, name);
      hide Wrote, Generates, ApplyAll;
      assert forall x :: x in actions <==> x in init || x == a;
    }
  }

  lemma GeneratesExactly(files: Files, a: Action, name: string)
    ensures name in Generates(files, a) <==> Wrote(a, name)
  {
    NamesSpelled(a.id);
    hide BriefName, SkipName, PromptName;
  }

  lemma NamesSpelled(id: string)
    ensures PromptName(id) == id + ".md" && BriefName(id) == id + "-validation.md"
    ensures SkipName(id) == id + "-validation-skip.md"
  {
    assert VALIDATION + MD == "-validation.md" && VALIDATION_SKIP + MD == "-validation-skip.md";
    assert BriefName(id) == id + (VALIDATION + MD) && SkipName(id) == id + (VALIDATION_SKIP + MD);
  }
}
