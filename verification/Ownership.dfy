/** Which line owns a task id, and which line a check-off ticks (src/plan_parse.rs). */
module Ownership {
  import opened Text
  import opened TaskId
  import opened TaskLines
  import opened Lines
  import opened PlanDocument
  import opened CheckOffTheorems
  import opened Newlines

  /** `t` is a task line whose own id has this key. */
  ghost predicate Owns(t: Option<TaskLine>, key: string) {
    t.Some? && t.value.taskId.Some? && Key(t.value.taskId.value) == key
  }

  /** Line `k` is the first one that owns the key. */
  ghost predicate IsFirstOwner(lines: seq<string>, n: nat, k: nat, key: string)
    requires n <= |lines|
  {
    k < n && Owns(TaskAt(lines, k), key) && forall j | 0 <= j < k :: !Owns(TaskAt(lines, j), key)
  }

  lemma {:induction false} FirstOwnerSnoc(tasks: seq<TaskLine>, t: TaskLine, taskId: string)
    ensures FirstOwner(tasks + [t], taskId) ==
            if FirstOwner(tasks, taskId).Some? then FirstOwner(tasks, taskId)
            else if t.taskId.Some? && TaskIdEq(t.taskId.value, taskId) then Some(t) else None
    decreases |tasks|
  {
    hide TaskIdEq;
    if tasks == [] {
      assert tasks + [t] == [t] && [t][1..] == [];
    } else {
      assert (tasks + [t])[1..] == tasks[1..] + [t];
      FirstOwnerSnoc(tasks[1..], t, taskId);
    }
  }

  /** The owner found in the list of tasks is the first line that owns the key. */
  lemma {:induction false} OwnerIsFirst(lines: seq<string>, n: nat, taskId: string)
    requires n <= |lines| && Key(taskId) != []
    ensures var owner := FirstOwner(TasksUpTo(lines, n), taskId);
            if owner.Some? then exists k: nat :: IsFirstOwner(lines, n, k, Key(taskId)) && owner == TaskAt(lines, k)
            else forall j | 0 <= j < n :: !Owns(TaskAt(lines, j), Key(taskId))
  {
    hide TaskAt, TaskIdEq, Key, FirstOwner;
    if n == 0 {
      NobodyOwns(taskId);
    } else {
      OwnerIsFirst(lines, n - 1, taskId);
      var before, t := TasksUpTo(lines, n - 1), TaskAt(lines, n - 1);
      if t.Some? {
        FirstOwnerSnoc(before, t.value, taskId);
        if t.value.taskId.Some? { TaskIdEqIsKeyEquality(t.value.taskId.value, taskId); }
      } else {
        assert TasksUpTo(lines, n) == before;
      }
      var owner := FirstOwner(before, taskId);
      if owner.Some? {
        var k: nat :| IsFirstOwner(lines, n - 1, k, Key(taskId)) && owner == TaskAt(lines, k);
        assert IsFirstOwner(lines, n, k, Key(taskId));
      } else if Owns(t, Key(taskId)) {
        assert IsFirstOwner(lines, n, n - 1, Key(taskId));
      }
    }
  }

  lemma NobodyOwns(taskId: string)
    ensures FirstOwner([], taskId) == None
  {}

  /** The plan's answer to whether a task is pending: its owner is. */
  predicate IsPendingTask(text: string, taskId: string) {
    var owner := FindTaskLine(text, taskId);
    owner.Some? && owner.value.checkbox == Unchecked
  }

  /** A ticked line of the key stands before its first pending one. */
  ghost predicate TickedBefore(lines: seq<string>, key: string) {
    exists k: nat, j: nat :: IsFirstPending(lines, k, key) && j < k && Owns(TaskAt(lines, j), key)
  }

  lemma EmptyKeyHasNoOwner(lines: seq<string>, k: nat)
    requires k < |lines|
    ensures !Owns(TaskAt(lines, k), [])
  {
    hide ParseTaskLineAt, Scannable, Key;
    if TaskAt(lines, k).Some? && TaskAt(lines, k).value.taskId.Some? { ParsedIdIsToken(lines[k], k); }
  }

  lemma KeyOfNothing(taskId: string)
    ensures Key(taskId) == [] <==> Normalize(taskId) == []
  {}

  lemma PendingOwns(t: Option<TaskLine>, key: string)
    ensures IsPending(t, key) <==> Owns(t, key) && t.value.checkbox == Unchecked
  {}

  /** The owner is pending exactly when some line of the id is and no ticked one stands before
      the first of them. */
  lemma OwnerIsPendingExactlyWhen(text: string, taskId: string)
    ensures var lines, key := LinesOf(text), Key(taskId);
            IsPendingTask(text, taskId) <==> !NonePending(lines, key) && !TickedBefore(lines, key)
  {
    hide TaskAt, Key, FirstOwner, LinesOf, Normalize;
    var lines, key := LinesOf(text), Key(taskId);
    KeyOfNothing(taskId);
    forall j | 0 <= j < |lines|
      ensures IsPending(TaskAt(lines, j), key)
              <==> Owns(TaskAt(lines, j), key) && TaskAt(lines, j).value.checkbox == Unchecked
    {
      PendingOwns(TaskAt(lines, j), key);
    }
    hide IsPending;
    if key == [] {
      forall j | 0 <= j < |lines| ensures !Owns(TaskAt(lines, j), key) { EmptyKeyHasNoOwner(lines, j); }
    } else {
      OwnerIsFirst(lines, |lines|, taskId);
      OwnerAgainstPending(lines, key, FirstOwner(ParseTasks(text), taskId));
    }
  }

  lemma OwnerAgainstPending(lines: seq<string>, key: string, owner: Option<TaskLine>)
    requires if owner.Some? then exists k: nat :: IsFirstOwner(lines, |lines|, k, key) && owner == TaskAt(lines, k)
             else forall j | 0 <= j < |lines| :: !Owns(TaskAt(lines, j), key)
    requires forall j | 0 <= j < |lines| ::
               IsPending(TaskAt(lines, j), key)
               <==> Owns(TaskAt(lines, j), key) && TaskAt(lines, j).value.checkbox == Unchecked
    ensures (owner.Some? && owner.value.checkbox == Unchecked)
            <==> !NonePending(lines, key) && !TickedBefore(lines, key)
  {
    hide TaskAt, Owns, IsPending;
    if owner.Some? {
      var k: nat :| IsFirstOwner(lines, |lines|, k, key) && owner == TaskAt(lines, k);
      hide NonePending, TickedBefore;
      if owner.value.checkbox == Unchecked {
        PendingOwner(lines, k, key);
      } else {
        TickedOwner(lines, k, key);
      }
    }
  }

  lemma PendingOwner(lines: seq<string>, k: nat, key: string)
    requires IsFirstOwner(lines, |lines|, k, key) && IsPending(TaskAt(lines, k), key)
    requires forall j | 0 <= j < |lines| :: IsPending(TaskAt(lines, j), key) ==> Owns(TaskAt(lines, j), key)
    ensures !NonePending(lines, key) && !TickedBefore(lines, key)
  {
    hide TaskAt, Owns, IsPending;
    forall i: nat | IsFirstPending(lines, i, key) ensures i == k {}
  }

  lemma TickedOwner(lines: seq<string>, k: nat, key: string)
    requires IsFirstOwner(lines, |lines|, k, key) && !IsPending(TaskAt(lines, k), key)
    requires forall j | 0 <= j < |lines| :: IsPending(TaskAt(lines, j), key) ==> Owns(TaskAt(lines, j), key)
    ensures NonePending(lines, key) || TickedBefore(lines, key)
  {
    hide TaskAt, Owns, IsPending;
    if !NonePending(lines, key) {
      var j: nat :| j < |lines| && IsPending(TaskAt(lines, j), key);
      var first := FirstPendingUpTo(lines, j, key);
      assert k < first;
    }
  }

  lemma {:induction false} FirstPendingUpTo(lines: seq<string>, j: nat, key: string) returns (first: nat)
    requires j < |lines| && IsPending(TaskAt(lines, j), key)
    ensures first <= j && IsFirstPending(lines, first, key)
    decreases j
  {
    hide TaskAt, IsPending;
    if i: nat :| i < j && IsPending(TaskAt(lines, i), key) {
      first := FirstPendingUpTo(lines, i, key);
    } else {
      first := j;
    }
  }

  /** For every text and id: the plan calls the task pending exactly when a check-off would
      flip it, unless a ticked line of the id stands before its first pending one. */
  lemma PendingMeansFlipsExactlyWhen(text: string, taskId: string)
    ensures (IsPendingTask(text, taskId) <==> CheckOffContent(text, taskId).1)
            <==> !TickedBefore(LinesOf(text), Key(taskId))
  {
    hide TaskAt, Key, LinesOf, IsPendingTask, CheckOffContent, IsPending, TicksLine, Owns;
    OwnerIsPendingExactlyWhen(text, taskId);
    CheckOffTicksFirstPending(text, taskId);
  }

  // ----- A plan that names an id twice

  const TICKED_LINE: string := "- [x] t-1"

  lemma TickedLineIsChecked(n: nat)
    ensures var t := ParseTaskLineAt(TICKED_LINE, n);
            t.Some? && t.value.checkbox == Checked && t.value.taskId == Some("t-1")
  {
    hide *;
    PendingLineParses(n);
    PendingLineBox();
    TickedIsTickedLine();
    TickedLineParses(PENDING_LINE, n);
    TickedTaskIsChecked(ParseTaskLineAt(PENDING_LINE, n).value);
  }

  lemma TickedIsTickedLine()
    ensures Ticked(PENDING_LINE, (2, 5)) == TICKED_LINE
  {
    assert PENDING_LINE[..2] == "- " && PENDING_LINE[5..] == " t-1";
  }

  lemma TwiceNamedTasks()
    ensures var lines := [TICKED_LINE, PENDING_LINE];
            && Owns(TaskAt(lines, 0), Key("t-1")) && !IsPending(TaskAt(lines, 0), Key("t-1"))
            && IsPending(TaskAt(lines, 1), Key("t-1"))
  {
    var lines := [TICKED_LINE, PENDING_LINE];
    TickedLineIsChecked(0);
    PendingLineParses(1);
    TaskLineIsNoFence(TICKED_LINE);
    TaskLineIsNoFence(PENDING_LINE);
    hide ParseTaskLineAt, FenceDelimiter, Key, HeadBox;
    assert StateAt(lines, 0) == Outside;
    assert StateAt(lines, 1) == Outside;
  }

  /** The plan calls the task done, and a check-off still flips a box for it. */
  lemma DoneTaskIsTickedAgain()
    ensures var text := TICKED_LINE + LF + PENDING_LINE;
            !IsPendingTask(text, "t-1") && CheckOffContent(text, "t-1").1
  {
    hide *;
    TwiceNamedTasks();
    LinesOfTwice();
    DoneThenPending(TICKED_LINE + LF + PENDING_LINE, [TICKED_LINE, PENDING_LINE]);
  }

  lemma LinesOfTwice()
    ensures LinesOf(TICKED_LINE + LF + PENDING_LINE) == [TICKED_LINE, PENDING_LINE]
  {
    OnlyLine(PENDING_LINE);
    FirstLine(TICKED_LINE, PENDING_LINE);
    hide LinesOf;
  }

  lemma DoneThenPending(text: string, lines: seq<string>)
    requires LinesOf(text) == lines && |lines| == 2
    requires Owns(TaskAt(lines, 0), Key("t-1")) && !IsPending(TaskAt(lines, 0), Key("t-1"))
    requires IsPending(TaskAt(lines, 1), Key("t-1"))
    ensures !IsPendingTask(text, "t-1") && CheckOffContent(text, "t-1").1
  {
    hide TaskAt, Key, LinesOf, IsPendingTask, CheckOffContent, IsPending, TicksLine, Owns;
    assert IsFirstPending(lines, 1, Key("t-1"));
    assert TickedBefore(lines, Key("t-1"));
    OwnerIsPendingExactlyWhen(text, "t-1");
    CheckOffTicksFirstPending(text, "t-1");
  }
}
