/** What every run of plan generations and ad-hoc records keeps, and what the read gate
    may conclude (src/agents/prompt_builder.rs, src/agents/validation.rs). */
module RecordLifecycle {
  import opened Text
  import opened TaskId
  import opened TrailingGroups
  import opened TaskLines
  import opened Lines
  import opened PlanDocument
  import opened Records

  // ----- The read gate

  datatype BriefState =
    | InvalidTaskId(error: TaskIdError)
    | Absent
    | Blank
    | BriefUnreadable
    | Present(text: string)

  function Probe(files: Files, rawId: string): BriefState {
    match ValidateTaskId(Normalize(rawId))
    case Rejected(error) => InvalidTaskId(error)
    case Accepted(id) =>
      if BriefName(id) !in files then Absent
      else match files[BriefName(id)]
        case Unreadable => BriefUnreadable
        case Readable(text) => if Trim(text) == [] then Blank else Present(text)
  }

  /** The reason of the skip record of an already normalized id, if it counts. */
  function SkipReason(files: Files, id: string): Option<string> {
    if ValidateTaskId(id).Rejected? || SkipName(id) !in files then None
    else match files[SkipName(id)]
      case Unreadable => None
      case Readable(text) => if Trim(text) == [] then None else Some(Trim(text))
  }

  datatype Gate =
    | RejectedId(error: TaskIdError)
    | SkippedByDesign(reason: string)
    | NotValidated
    | Audit(brief: Option<string>)

  /** The early returns of automated validation, up to contacting the validator. */
  function GateOf(files: Files, dirExists: bool, taskId: Option<string>): Gate {
    match taskId
    case None => if dirExists then NotValidated else Audit(None)
    case Some(rawId) =>
      match Probe(files, rawId)
      case InvalidTaskId(error) => RejectedId(error)
      case Present(text) => Audit(Some(text))
      case Absent =>
        if !dirExists then Audit(None)
        else (match SkipReason(files, Normalize(rawId))
              case Some(reason) => SkippedByDesign(reason)
              case None => NotValidated)
      case _ => if dirExists then NotValidated else Audit(None)
  }

  /** The gate skips exactly for an acceptable id whose brief was never written and whose
      skip record is readable and not blank. */
  ghost predicate Skips(files: Files, id: string) {
    && BriefName(id) !in files
    && SkipName(id) in files && files[SkipName(id)].Readable? && Trim(files[SkipName(id)].text) != []
  }

  lemma GateSkipsExactlyWhen(files: Files, dirExists: bool, rawId: string)
    ensures GateOf(files, dirExists, Some(rawId)).SkippedByDesign? <==>
            dirExists && ValidateTaskId(Normalize(rawId)).Accepted? && Skips(files, Normalize(rawId))
  {
    hide Trim, Normalize, Scan, Contains;
    AcceptsExactlyTheGrammar(Normalize(rawId));
    if ValidateTaskId(Normalize(rawId)).Accepted? { AcceptedIsNormalized(Normalize(rawId)); }
  }

  // ----- File names never collide across kinds

  lemma MdFacts()
    ensures |MD| == 3 && |VALIDATION| == 11 && |VALIDATION_SKIP| == 16
    ensures VALIDATION[10] == 'n' && VALIDATION_SKIP[15] == 'p'
  {}

  lemma StemsEqual(a: string, b: string, tail: string)
    requires a + tail == b + tail
    ensures a == b
  {
    assert |a| == |b|;
    assert a == (a + tail)[..|a|] && b == (b + tail)[..|b|];
  }

  /** Two names of one kind are equal only for equal ids. */
  lemma NamesOfOneKind(a: string, b: string)
    ensures BriefName(a) == BriefName(b) <==> a == b
    ensures SkipName(a) == SkipName(b) <==> a == b
  {
    hide MD, VALIDATION, VALIDATION_SKIP;
    if BriefName(a) == BriefName(b) {
      StemsEqual(a + VALIDATION, b + VALIDATION, MD);
      StemsEqual(a, b, VALIDATION);
    }
    if SkipName(a) == SkipName(b) {
      StemsEqual(a + VALIDATION_SKIP, b + VALIDATION_SKIP, MD);
      StemsEqual(a, b, VALIDATION_SKIP);
    }
  }

  /** A brief is never named like a skip record. */
  lemma BriefIsNoSkip(a: string, b: string)
    ensures BriefName(a) != SkipName(b)
  {
    MdFacts();
    var x, y := a + VALIDATION, b + VALIDATION_SKIP;
    assert x[|x| - 1] == VALIDATION[10] && y[|y| - 1] == VALIDATION_SKIP[15];
    if x + MD == y + MD { StemsEqual(x, y, MD); }
  }

  /** A prompt is named like a brief or a record only if its id is another id with the
      suffix appended. */
  lemma PromptNameCollides(a: string, b: string)
    ensures PromptName(a) == BriefName(b) <==> a == b + VALIDATION
    ensures PromptName(a) == SkipName(b) <==> a == b + VALIDATION_SKIP
  {
    hide MD, VALIDATION, VALIDATION_SKIP;
    if PromptName(a) == BriefName(b) { StemsEqual(a, b + VALIDATION, MD); }
    if PromptName(a) == SkipName(b) { StemsEqual(a, b + VALIDATION_SKIP, MD); }
  }

  // ----- Runs

  /** No prompt saved in the run is named like a record of `id`. */
  ghost predicate CollisionFree(actions: seq<Action>, id: string) {
    forall a | a in actions && a.SavePrompt? :: a.id != id + VALIDATION && a.id != id + VALIDATION_SKIP
  }

  predicate Decides(a: Action, id: string) { !a.SavePrompt? && a.id == id }

  /** The action saves a prompt, or a part of one, under this name. */
  predicate TakesName(a: Action, name: string) { a.SavePrompt? && PromptName(a.id) == name && a.write != Refused }

  ghost predicate SomePromptTakes(actions: seq<Action>, name: string) { exists a :: a in actions && TakesName(a, name) }

  /** Only a prompt whose id is another id with a record suffix takes a record's name. */
  lemma CollisionFreeTakesNothing(actions: seq<Action>, id: string)
    requires CollisionFree(actions, id)
    ensures !SomePromptTakes(actions, BriefName(id)) && !SomePromptTakes(actions, SkipName(id))
  {
    hide BriefName, SkipName, PromptName;
    forall a | a in actions ensures !TakesName(a, BriefName(id)) && !TakesName(a, SkipName(id)) {
      PromptNameCollides(a.id, id);
    }
  }

  lemma TakesGrows(init: seq<Action>, a: Action, name: string)
    ensures SomePromptTakes(init + [a], name) <==> SomePromptTakes(init, name) || TakesName(a, name)
  {
    hide TakesName;
    assert forall x :: x in init + [a] <==> x in init || x == a;
  }

  /** The file under this name is in `after` as it was in `before`. */
  predicate SameFile(before: Files, after: Files, name: string) {
    (name in after <==> name in before) && (name in before ==> after[name] == before[name])
  }

  /** An action that does not decide for `id` leaves its records alone, unless it saves a prompt
      under their names. */
  lemma OthersUntouched(files: Files, a: Action, id: string)
    requires !Decides(a, id)
    ensures !TakesName(a, BriefName(id)) ==> SameFile(files, Apply(files, a), BriefName(id))
    ensures !TakesName(a, SkipName(id)) ==> SameFile(files, Apply(files, a), SkipName(id))
  {
    hide BriefName, SkipName, PromptName;
    NamesOfOneKind(a.id, id);
    BriefIsNoSkip(a.id, id);
    BriefIsNoSkip(id, a.id);
  }

  datatype Decision = Undecided | LastSkip | LastBrief

  /** The last brief-or-skip decision a run takes for an id. */
  ghost function LastDecision(actions: seq<Action>, id: string): Decision {
    if actions == [] then Undecided
    else
      var a := actions[|actions| - 1];
      if Decides(a, id) then (if a.DecideSkip? then LastSkip else LastBrief)
      else LastDecision(actions[..|actions| - 1], id)
  }

  /** A skip record outlived a brief decision: since the last skip decision that could
      clear the brief, every brief decision met a skip record it could not delete. */
  ghost predicate SkipOutlived(files: Files, actions: seq<Action>, id: string) {
    if actions == [] then false
    else
      var init, a := actions[..|actions| - 1], actions[|actions| - 1];
      var before := ApplyAll(files, init);
      if !Decides(a, id) then SkipOutlived(files, init, id)
      else if a.DecideBrief? then SkipName(id) in before && !a.deletes
      else SkipOutlived(files, init, id) && !a.deletes
  }

  /** One decision for `id`, seen from its records. */
  lemma DecisionStep(files: Files, a: Action, id: string)
    requires Decides(a, id)
    ensures var files' := Apply(files, a);
            if a.DecideBrief? then
              (SkipName(id) in files' <==> SkipName(id) in files && !a.deletes)
            else if !a.deletes then files' == files
            else BriefName(id) !in files'
  {
    hide BriefName, SkipName;
    BriefIsNoSkip(id, id);
  }

  /** What every reachable state keeps, whatever fails: a skip record only exists after a
      skip decision, unless it outlived a brief decision or is a prompt of that name, and only
      then can it stand beside a brief. */
  lemma {:induction false} RunInvariant(files: Files, actions: seq<Action>, id: string)
    requires SkipName(id) !in files
    ensures var files' := ApplyAll(files, actions);
            && (SkipName(id) in files' ==>
                  LastDecision(actions, id) == LastSkip || SkipOutlived(files, actions, id)
                  || SomePromptTakes(actions, SkipName(id)))
            && (SkipName(id) in files' && BriefName(id) in files' ==>
                  SkipOutlived(files, actions, id) || SomePromptTakes(actions, SkipName(id))
                  || SomePromptTakes(actions, BriefName(id)))
  {
    hide Apply, BriefName, SkipName, TakesName, SomePromptTakes;
    if actions != [] {
      var init, a := actions[..|actions| - 1], actions[|actions| - 1];
      assert actions == init + [a];
      TakesGrows(init, a, SkipName(id));
      TakesGrows(init, a, BriefName(id));
      RunInvariant(files, init, id);
      var before := ApplyAll(files, init);
      if Decides(a, id) {
        DecisionStep(before, a, id);
      } else {
        OthersUntouched(before, a, id);
      }
    }
  }

  /** Every brief decision of the run that meets a stale skip record of `id` deletes it. */
  ghost predicate SkipDeletesSucceed(actions: seq<Action>, id: string) {
    forall a | a in actions && a.DecideBrief? && a.id == id :: a.deletes
  }

  lemma {:induction false} NothingOutlived(files: Files, actions: seq<Action>, id: string)
    requires SkipDeletesSucceed(actions, id)
    ensures !SkipOutlived(files, actions, id)
  {
    hide Apply, BriefName, SkipName;
    if actions != [] {
      var init, a := actions[..|actions| - 1], actions[|actions| - 1];
      assert a in actions;
      assert forall x | x in init :: x in actions;
      NothingOutlived(files, init, id);
    }
  }

  /** Over all runs in which briefs, deletes of briefs and writes may fail in any way, but
      deleting a stale skip record does not: no id has both records, and the gate skips an
      id only if the last decision for it was to skip, prompts saved under the name of one of
      its records aside. */
  lemma RecordsNeverContradict(actions: seq<Action>, rawId: string, dirExists: bool)
    requires SkipDeletesSucceed(actions, Normalize(rawId))
    ensures var id, files := Normalize(rawId), ApplyAll(map[], actions);
            && (SkipName(id) in files && BriefName(id) in files ==>
                  SomePromptTakes(actions, SkipName(id)) || SomePromptTakes(actions, BriefName(id)))
            && (GateOf(files, dirExists, Some(rawId)).SkippedByDesign? ==>
                  LastDecision(actions, id) == LastSkip || SomePromptTakes(actions, SkipName(id)))
  {
    hide GateOf, ApplyAll, Normalize, LastDecision, SkipOutlived, SomePromptTakes, SkipDeletesSucceed, BriefName;
    hide SkipName;
    var id := Normalize(rawId);
    RunInvariant(map[], actions, id);
    NothingOutlived(map[], actions, id);
    GateSkipsExactlyWhen(ApplyAll(map[], actions), dirExists, rawId);
  }

  /** A prompt saved for the id with the skip suffix appended reads as a skip nobody decided. */
  lemma PromptReadsAsSkip(id: string, text: string)
    requires Trim(text) != []
    ensures var actions := [SavePrompt(id + VALIDATION_SKIP, text, Written)];
            LastDecision(actions, id) == Undecided && Skips(ApplyAll(map[], actions), id)
  {
    hide BriefName, SkipName, PromptName, Trim;
    ApplyOne(map[], SavePrompt(id + VALIDATION_SKIP, text, Written));
    PromptNameCollides(id + VALIDATION_SKIP, id);
    BriefIsNoSkip(id, id);
  }

  // ----- When a brief decision does not take effect

  /** Exactly when a brief decision leaves contradicting records, and exactly when it
      leaves a state the gate still reads as a skip: the stale skip record could not be
      deleted, and the brief was written, or was not. */
  lemma BriefDecisionFailsExactlyWhen(files: Files, id: string, text: string, deletes: bool, write: WriteOutcome)
    ensures var files' := Apply(files, DecideBrief(id, text, deletes, write));
            && ((SkipName(id) in files' && BriefName(id) in files') <==>
                  SkipName(id) in files && !deletes && (BriefName(id) in files || write != Refused))
            && (Skips(files', id) <==> Skips(files, id) && !deletes && write == Refused)
  {
    hide BriefName, SkipName, Trim;
    BriefIsNoSkip(id, id);
  }

  /** The gap is reachable in two decisions: a plan skips the task, the next plan wants it
      validated, and neither the delete nor the write gets through. */
  lemma SkipCanOutliveABrief(id: string, text: string)
    ensures var actions := [DecideSkip(id, REASON_PLAN, true, Written), DecideBrief(id, text, false, Refused)];
            LastDecision(actions, id) == LastBrief && Skips(ApplyAll(map[], actions), id)
  {
    hide BriefName, SkipName, Trim;
    var skip, brief := DecideSkip(id, REASON_PLAN, true, Written), DecideBrief(id, text, false, Refused);
    ApplySnoc(map[], [skip], brief);
    ApplyOne(map[], skip);
    assert [skip] + [brief] == [skip, brief];
    BriefIsNoSkip(id, id);
    ReasonIsNotBlank();
  }

  lemma ReasonIsNotBlank()
    ensures Trim(REASON_PLAN + ['\n']) != [] && Trim(REASON_ADHOC + ['\n']) != []
  {
    assert REASON_PLAN[0] == 'P' && REASON_ADHOC[0] == 'A';
    NotBlank(REASON_PLAN + ['\n']);
    NotBlank(REASON_ADHOC + ['\n']);
  }

  lemma NotBlank(s: string)
    requires s != [] && !IsWhitespace(s[0])
    ensures Trim(s) != []
  {
    var pre, post := TrimWhileParts(IsWhitespace, s);
  }

  // ----- A decision governs until the next one

  lemma {:induction false} KeptByTheRest(files: Files, rest: seq<Action>, id: string)
    requires forall a | a in rest :: !Decides(a, id)
    ensures !SomePromptTakes(rest, BriefName(id)) ==> SameFile(files, ApplyAll(files, rest), BriefName(id))
    ensures !SomePromptTakes(rest, SkipName(id)) ==> SameFile(files, ApplyAll(files, rest), SkipName(id))
  {
    hide Apply, BriefName, SkipName, SomePromptTakes, TakesName;
    if rest != [] {
      var init, a := rest[..|rest| - 1], rest[|rest| - 1];
      assert rest == init + [a];
      assert a in rest;
      assert forall x | x in init :: x in rest;
      TakesGrows(init, a, SkipName(id));
      TakesGrows(init, a, BriefName(id));
      KeptByTheRest(files, init, id);
      OthersUntouched(ApplyAll(files, init), a, id);
    }
  }

  /** A skip decision whose record got written, or a brief decision whose brief got written, is
      what the gate reports until another decision for the id, or a prompt saved under the name
      of one of its records. */
  lemma DecisionGoverns(files: Files, a: Action, rest: seq<Action>, rawId: string)
    requires var id := Normalize(rawId);
             && ValidateTaskId(id).Accepted? && Decides(a, id) && a.write == Written
             && forall x | x in rest :: !Decides(x, id)
    requires a.DecideSkip? ==> (a.reason == REASON_PLAN || a.reason == REASON_ADHOC) && a.deletes
    requires a.DecideBrief? ==> Trim(a.text) != []
    ensures var id, gate := Normalize(rawId), GateOf(ApplyAll(files, [a] + rest), true, Some(rawId));
            || SomePromptTakes(rest, BriefName(id))
            || (a.DecideBrief? && gate == Audit(Some(a.text)))
            || (a.DecideSkip?
                && (SomePromptTakes(rest, SkipName(id)) || gate == SkippedByDesign(Trim(a.reason + ['\n']))))
  {
    hide BriefName, SkipName, Trim, Normalize, ValidateTaskId, SomePromptTakes;
    var id := Normalize(rawId);
    AcceptedIsNormalized(id);
    AcceptsExactlyTheGrammar(id);
    ApplyAppend(files, [a], rest);
    ApplyOne(files, a);
    KeptByTheRest(Apply(files, a), rest, id);
    BriefIsNoSkip(id, id);
    ReasonIsNotBlank();
  }

  // ----- Where a skip decision comes from

  lemma DirectiveIsParsed(line: string, n: nat)
    requires ParseTaskLineAt(line, n).Some?
    ensures var t := ParseTaskLineAt(line, n).value; t.validationDirective == SplitDirective(t.description).1
  {
    hide LeadingToken, SplitDirective, SplitRoleHint, Trim, HeadBox, BoxState, Normalize, IsTaskIdToken;
  }

  lemma {:induction false} TasksAreParsedLines(lines: seq<string>, n: nat, t: TaskLine)
    requires n <= |lines| && t in TasksUpTo(lines, n)
    ensures exists k | 0 <= k < n :: ParseTaskLineAt(lines[k], k) == Some(t)
  {
    hide Scannable, ParseTaskLineAt;
    if TaskAt(lines, n - 1) != Some(t) { TasksAreParsedLines(lines, n - 1, t); }
  }

  lemma {:induction false} ItemsArePending(tasks: seq<TaskLine>, item: PlanTaskItem)
    requires item in ItemsOf(tasks)
    ensures exists t :: t in tasks && t.checkbox == Unchecked && t.taskId == Some(item.taskId)
                        && t.validationDirective == item.validationDirective
  {
    if item !in ItemsOf(tasks[1..]) {
      assert tasks[0] in tasks;
    } else {
      ItemsArePending(tasks[1..], item);
    }
  }

  lemma {:induction false} ActionHasAnItem(items: seq<PlanTaskItem>, io: nat -> ItemIo, a: Action)
    requires a in ActionsOfPlan(items, io)
    ensures exists k: nat :: k < |items| && a in ActionsOf(items[k], io(k))
  {
    hide ActionsOf;
    var n := |items| - 1;
    if a !in ActionsOf(items[n], io(n)) {
      ActionHasAnItem(items[..n], io, a);
      var k: nat :| k < |items[..n]| && a in ActionsOf(items[..n][k], io(k));
      assert items[..n][k] == items[k];
    }
  }

  lemma SkipNeedsNoValidate(item: PlanTaskItem, io: ItemIo, a: Action)
    requires a in ActionsOf(item, io) && a.DecideSkip?
    ensures item.validationDirective == NoValidate && a.id == item.taskId
  {
    hide Trim, Scan, Contains, AgentOf, Normalize;
    AcceptsExactlyTheGrammar(item.taskId);
  }

  /** The description of a task ends in a balanced group that is exactly the reserved word. */
  ghost predicate SaysNoValidate(description: string) {
    var t := Trim(description);
    exists g | g in GroupsAtEnd(t, |t|) ::
      Balances(t[..g.1], g.0) && Lower(Trim(GroupText(t, g))) == NO_VALIDATE
  }

  /** Generating a plan decides to skip a task only if a pending line outside every fence
      carries the task's id and spells the reserved word in a trailing group of its own. */
  lemma SkipComesFromThePlanLine(markdown: string, io: nat -> ItemIo, a: Action)
    requires a in ActionsOfPlan(ParseTasksFromPlan(markdown), io) && a.DecideSkip?
    ensures exists t :: t in ParseTasks(markdown) && t.checkbox == Unchecked && t.taskId == Some(a.id)
                        && SaysNoValidate(t.description)
  {
    hide ActionsOfPlan, ActionsOf, ItemsOf, TasksUpTo, ParseTaskLineAt, SplitDirective, LinesOf, SaysNoValidate;
    var items, tasks, lines := ParseTasksFromPlan(markdown), ParseTasks(markdown), LinesOf(markdown);
    ActionHasAnItem(items, io, a);
    var k: nat :| k < |items| && a in ActionsOf(items[k], io(k));
    SkipNeedsNoValidate(items[k], io(k), a);
    ItemsArePending(tasks, items[k]);
    var t :| t in tasks && t.checkbox == Unchecked && t.taskId == Some(a.id) && t.validationDirective == NoValidate;
    TasksAreParsedLines(lines, |lines|, t);
    var n :| 0 <= n < |lines| && ParseTaskLineAt(lines[n], n) == Some(t);
    DirectiveIsParsed(lines[n], n);
    NoValidateIsSpelled(t.description);
  }

  lemma NoValidateIsSpelled(description: string)
    requires SplitDirective(description).1 == NoValidate
    ensures SaysNoValidate(description)
  {
    hide SplitDirective, GroupsAtEnd, GroupText, Balances, Trim, Lower;
    DirectiveNeedsTheExactWord(description);
  }
}
