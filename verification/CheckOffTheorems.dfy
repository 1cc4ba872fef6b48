/** What check-off keeps, over one call and over whole runs of calls. */
module CheckOffTheorems {
  import opened Text
  import opened TaskId
  import opened TaskLines
  import opened Lines
  import opened PlanDocument

  // ----- One line

  lemma LineNumberIsALabel(line: string, n: nat)
    ensures ParseTaskLineAt(line, n) == match ParseTaskLineAt(line, 0)
                                        case None => None
                                        case Some(t) => Some(t.(lineNumber := n))
  {
    hide ParseRest, HeadBox, BoxState;
  }

  /** `t` is a pending task whose own id is `taskId`. */
  ghost predicate IsPending(t: Option<TaskLine>, key: string) {
    t.Some? && t.value.checkbox == Unchecked && t.value.taskId.Some? && Key(t.value.taskId.value) == key
  }

  /** A check-off candidate is a pending task outside every fence, owned by that id. */
  lemma FlipsIsPending(lines: seq<string>, k: nat, taskId: string)
    requires k < |lines|
    ensures Flips(lines, k, taskId) <==> IsPending(TaskAt(lines, k), Key(taskId))
    ensures Flips(lines, k, taskId) ==>
              CheckOffLine(lines[k], taskId) == Some(Ticked(lines[k], TaskAt(lines, k).value.checkboxSpan))
  {
    hide Scannable, ParseTaskLineAt, Key, Ticked, TaskIdEq;
    var line := lines[k];
    LineNumberIsALabel(line, k);
    if ParseTaskLineAt(line, 0).Some? && ParseTaskLineAt(line, 0).value.taskId.Some? {
      ParsedIdIsToken(line, 0);
      TaskIdEqIsKeyEquality(ParseTaskLineAt(line, 0).value.taskId.value, taskId);
    }
  }

  /** A task line is never a fence delimiter, before or after its box is ticked. */
  lemma TaskLineIsNoFence(line: string)
    requires HeadBox(line).Some?
    ensures FenceDelimiter(line) == None
  {
    var b := HeadBox(line).value.0;
    var i := SkipWhile(IsWhitespace, line, 0);
    assert i <= b;
    assert TrimStart(line)[0] == line[i];
    hide HeadBox, BoxStart, SkipMarker, SkipQuotes;
  }

  lemma TickedIsALine(line: string, box: (nat, nat))
    requires HeadBox(line) == Some(box) && NoNewline(line)
    ensures var line' := Ticked(line, box);
            NoNewline(line') && line' != [] && (EndsWith(line', '\r') ==> EndsWith(line, '\r'))
  {
    hide HeadBox;
    var line' := Ticked(line, box);
    if box.1 < |line| {
      assert line'[|line'| - 1] == line[|line| - 1];
    } else {
      assert line'[|line'| - 1] == TickedBox(line[box.0])[2];
    }
  }

  // ----- One document

  /** Ticking line `k` leaves the fences and every other task alone. */
  lemma {:induction false} FencesKept(lines: seq<string>, k: nat, line': string, n: nat)
    requires k < |lines| && n <= |lines|
    requires FenceDelimiter(lines[k]) == None && FenceDelimiter(line') == None
    ensures StateAt(lines[k := line'], n) == StateAt(lines, n)
  {
    hide FenceDelimiter;
    if n > 0 { FencesKept(lines, k, line', n - 1); }
  }

  lemma TasksKept(lines: seq<string>, k: nat)
    requires k < |lines| && TaskAt(lines, k).Some?
    ensures var task := TaskAt(lines, k).value;
            var lines' := lines[k := Ticked(lines[k], task.checkboxSpan)];
            && (forall n | 0 <= n <= |lines| :: StateAt(lines', n) == StateAt(lines, n))
            && TaskAt(lines', k) == Some(TickedTask(task))
            && forall i | 0 <= i < |lines| && i != k :: TaskAt(lines', i) == TaskAt(lines, i)
  {
    var task := TaskAt(lines, k).value;
    hide HeadBox, ParseTaskLineAt, FenceDelimiter, Ticked, StateAt, TickedTask;
    TickedLineParses(lines[k], k);
    var line' := Ticked(lines[k], task.checkboxSpan);
    TaskLineIsNoFence(line');
    forall n | 0 <= n <= |lines|
      ensures StateAt(lines[k := line'], n) == StateAt(lines, n)
    {
      FencesKept(lines, k, line', n);
    }
  }

  /** The first line a call may tick, by what the parser says of it. */
  ghost predicate IsFirstPending(lines: seq<string>, k: nat, key: string) {
    k < |lines| && IsPending(TaskAt(lines, k), key) && forall j | 0 <= j < k :: !IsPending(TaskAt(lines, j), key)
  }

  ghost predicate NonePending(lines: seq<string>, key: string) {
    forall j | 0 <= j < |lines| :: !IsPending(TaskAt(lines, j), key)
  }

  /** `content'` is `content` with the box of line `k`, and nothing else, ticked. */
  ghost predicate TicksLine(content: string, k: nat, content': string) {
    var cs := Chunks(content);
    && k < |cs| && TaskAt(LinesOf(content), k).Some?
    && var cs' := WithBody(cs, k, Ticked(cs[k].body, TaskAt(LinesOf(content), k).value.checkboxSpan));
    content' == Unchunk(cs') && Chunks(content') == cs'
  }

  /** Check-off ticks the box of the first pending line of the id and changes no other
      character; without such a line it returns the document as it was. */
  lemma CheckOffTicksFirstPending(content: string, taskId: string)
    ensures var (content', flipped) := CheckOffContent(content, taskId);
            var lines := LinesOf(content);
            if flipped then exists k: nat :: IsFirstPending(lines, k, Key(taskId)) && TicksLine(content, k, content')
            else content' == content && NonePending(lines, Key(taskId))
  {
    hide Flips, CheckOffLine, IsPending, Ticked, TaskAt, FirstFlip, Key;
    var lines, first := LinesOf(content), FirstFlip(LinesOf(content), taskId);
    FirstFlipIsFirst(lines, taskId);
    forall j | 0 <= j < |lines| ensures Flips(lines, j, taskId) <==> IsPending(TaskAt(lines, j), Key(taskId)) {
      FlipsIsPending(lines, j, taskId);
    }
    if first.Some? {
      var k := first.value;
      FlipsIsPending(lines, k, taskId);
      PendingIsATaskLine(lines, k, Key(taskId));
      var box := TaskAt(lines, k).value.checkboxSpan;
      ChunksRoundTrip(content);
      TickedIsALine(lines[k], box);
      ReplaceBody(content, k, Ticked(lines[k], box));
      assert IsFirstPending(lines, k, Key(taskId)) && TicksLine(content, k, CheckOffContent(content, taskId).0);
    }
  }

  lemma PendingIsATaskLine(lines: seq<string>, k: nat, key: string)
    requires k < |lines| && IsPending(TaskAt(lines, k), key)
    ensures TaskAt(lines, k).Some? && HeadBox(lines[k]) == Some(TaskAt(lines, k).value.checkboxSpan)
  {
    hide Scannable, HeadBox, Key;
  }

  /** How many tasks there are above line `k`. */
  ghost function TasksAbove(lines: seq<string>, k: nat): nat
    requires k <= |lines|
  {
    |TasksUpTo(lines, k)|
  }

  lemma {:induction false} TaskListKept(lines: seq<string>, lines': seq<string>, k: nat, n: nat)
    requires k < |lines| == |lines'| && n <= |lines|
    requires TaskAt(lines, k).Some? && TaskAt(lines', k).Some?
    requires forall i | 0 <= i < |lines| && i != k :: TaskAt(lines', i) == TaskAt(lines, i)
    ensures var j, ts := TasksAbove(lines, k), TasksUpTo(lines, n);
            if n <= k then TasksUpTo(lines', n) == ts
            else j < |ts| && ts[j] == TaskAt(lines, k).value
                 && TasksUpTo(lines', n) == ts[j := TaskAt(lines', k).value]
  {
    hide TaskAt;
    if n > 0 {
      TaskListKept(lines, lines', k, n - 1);
      if n - 1 > k {
        assert TaskAt(lines', n - 1) == TaskAt(lines, n - 1);
      } else if n - 1 == k {
        TaskListKept(lines, lines', k, k);
      }
    }
  }

  /** Re-reading the document after a check-off: same lines but one, same fences, same
      tasks but for one ticked box. */
  ghost predicate SameButTicked(lines: seq<string>, k: nat, lines': seq<string>) {
    && k < |lines| == |lines'|
    && TaskAt(lines, k).Some?
    && var task := TaskAt(lines, k).value;
    && lines' == lines[k := Ticked(task.raw, task.checkboxSpan)]
    && (forall n | 0 <= n <= |lines| :: StateAt(lines', n) == StateAt(lines, n))
    && TaskAt(lines', k) == Some(TickedTask(task))
    && (forall i | 0 <= i < |lines| && i != k :: TaskAt(lines', i) == TaskAt(lines, i))
    && var tasks, j := TasksUpTo(lines, |lines|), TasksAbove(lines, k);
    && j < |tasks| && tasks[j] == task
    && TasksUpTo(lines', |lines'|) == tasks[j := TickedTask(task)]
  }

  lemma TickedLines(content: string, k: nat, content': string)
    requires TicksLine(content, k, content')
    ensures var lines := LinesOf(content);
            && k < |lines| && TaskAt(lines, k).Some?
            && LinesOf(content') == lines[k := Ticked(lines[k], TaskAt(lines, k).value.checkboxSpan)]
  {
    hide TaskAt, Ticked;
  }

  lemma TickedReparses(lines: seq<string>, k: nat, lines': seq<string>)
    requires k < |lines| && TaskAt(lines, k).Some?
    requires lines' == lines[k := Ticked(lines[k], TaskAt(lines, k).value.checkboxSpan)]
    ensures SameButTicked(lines, k, lines')
  {
    TasksKept(lines, k);
    hide TaskAt, Ticked, StateAt, TickedTask, TasksUpTo;
    TaskListKept(lines, lines', k, |lines|);
  }

  /** What a check-off of an id with this key makes of a document: if some pending line
      carries the id, the first one is ticked and nothing else changes, neither in the
      text nor in what the parser reads from it; otherwise the document stays as it is. */
  ghost predicate Outcome(content: string, key: string, content': string, flipped: bool) {
    var lines := LinesOf(content);
    if flipped then exists k: nat :: IsFirstPending(lines, k, key)
                      && TicksLine(content, k, content') && SameButTicked(lines, k, LinesOf(content'))
    else content' == content && NonePending(lines, key)
  }

  /** The parse survives a check-off. */
  lemma CheckOffPreservesParse(content: string, taskId: string)
    ensures var (content', flipped) := CheckOffContent(content, taskId);
            Outcome(content, Key(taskId), content', flipped)
  {
    hide CheckOffContent, IsFirstPending, TicksLine, SameButTicked, NonePending, Key;
    CheckOffTicksFirstPending(content, taskId);
    var (content', flipped) := CheckOffContent(content, taskId);
    if flipped {
      var k: nat :| IsFirstPending(LinesOf(content), k, Key(taskId)) && TicksLine(content, k, content');
      TickedLines(content, k, content');
      TickedReparses(LinesOf(content), k, LinesOf(content'));
    }
  }

  // ----- Runs of check-offs

  /** The keys of a list of ids, with multiplicity. */
  function Keys(ids: seq<string>): multiset<string> {
    if ids == [] then multiset{} else Keys(ids[..|ids| - 1]) + multiset{Key(ids[|ids| - 1])}
  }

  /** The keys still pending in a document. */
  function PendingKeys(content: string): multiset<string> { Keys(UncheckedTaskIds(content)) }

  /** The id a task contributes to the pending ones. */
  function PendingId(t: TaskLine): seq<string> {
    if t.checkbox == Unchecked && t.taskId.Some? then [t.taskId.value] else []
  }

  lemma KeysSnoc(ids: seq<string>, id: string)
    ensures Keys(ids + [id]) == Keys(ids) + multiset{Key(id)}
  {
    hide Key;
    assert (ids + [id])[..|ids|] == ids;
  }

  /** The pending keys, one task at a time from the end. */
  lemma PendingKeysSnoc(tasks: seq<TaskLine>, t: TaskLine)
    ensures Keys(UncheckedIds(tasks + [t])) == Keys(UncheckedIds(tasks)) + Keys(PendingId(t))
    ensures OpenWithoutId(tasks + [t]) ==
            OpenWithoutId(tasks) + (if t.checkbox == Unchecked && t.taskId == None then 1 else 0)
    ensures Keys(PendingId(t)) == if PendingId(t) == [] then multiset{} else multiset{Key(t.taskId.value)}
  {
    UnfoldTasks(tasks, t);
    hide Key, Keys, UncheckedIds, OpenWithoutId;
    KeysOfNone();
    if PendingId(t) != [] {
      KeysSnoc(UncheckedIds(tasks), t.taskId.value);
      KeysSnoc([], t.taskId.value);
      assert [] + [t.taskId.value] == PendingId(t);
    } else {
      assert UncheckedIds(tasks) + [] == UncheckedIds(tasks);
    }
  }

  lemma KeysOfNone()
    ensures Keys([]) == multiset{}
  {}

  lemma UnfoldTasks(tasks: seq<TaskLine>, t: TaskLine)
    ensures UncheckedIds(tasks + [t]) == UncheckedIds(tasks) + PendingId(t)
    ensures OpenWithoutId(tasks + [t]) ==
            OpenWithoutId(tasks) + (if t.checkbox == Unchecked && t.taskId == None then 1 else 0)
  {
    assert (tasks + [t])[..|tasks|] == tasks;
  }

  lemma {:induction false} TickingRemovesOneKey(tasks: seq<TaskLine>, j: nat, t': TaskLine)
    requires j < |tasks| && tasks[j].checkbox == Unchecked && tasks[j].taskId.Some? && t'.checkbox == Checked
    ensures var key := Key(tasks[j].taskId.value);
            && key in Keys(UncheckedIds(tasks))
            && Keys(UncheckedIds(tasks[j := t'])) == Keys(UncheckedIds(tasks)) - multiset{key}
            && OpenWithoutId(tasks[j := t']) == OpenWithoutId(tasks)
  {
    hide Key, Keys, UncheckedIds, OpenWithoutId;
    var n := |tasks| - 1;
    var init, last, tasks' := tasks[..n], tasks[n], tasks[j := t'];
    assert tasks == init + [last];
    PendingKeysSnoc(init, last);
    if j == n {
      assert tasks' == init + [t'];
      PendingKeysSnoc(init, t');
    } else {
      assert tasks' == init[j := t'] + [last];
      PendingKeysSnoc(init[j := t'], last);
      TickingRemovesOneKey(init, j, t');
    }
  }

  lemma {:induction false} PendingKeyHasALine(lines: seq<string>, n: nat, key: string)
    requires n <= |lines|
    ensures key in Keys(UncheckedIds(TasksUpTo(lines, n)))
            <==> exists j | 0 <= j < n :: IsPending(TaskAt(lines, j), key)
  {
    hide TaskAt, Key, Keys, UncheckedIds, IsPending;
    if n == 0 {
      NothingPending();
    } else {
      PendingKeyHasALine(lines, n - 1, key);
      var before, t := TasksUpTo(lines, n - 1), TaskAt(lines, n - 1);
      PendingOfOne(t, key);
      if t.Some? {
        PendingKeysSnoc(before, t.value);
      } else {
        assert TasksUpTo(lines, n) == before;
      }
    }
  }

  lemma PendingOfOne(t: Option<TaskLine>, key: string)
    ensures IsPending(t, key) <==> t.Some? && PendingId(t.value) != [] && Key(t.value.taskId.value) == key
  {
    hide Key;
  }

  lemma NothingPending()
    ensures Keys(UncheckedIds([])) == multiset{}
  {}

  /** One call flips a box exactly when its id is pending, and then takes one occurrence
      of that id, and nothing else, out of the pending ids. */
  lemma CheckOffRemovesOneKey(content: string, taskId: string)
    ensures var (content', flipped) := CheckOffContent(content, taskId);
            && (flipped <==> Key(taskId) in PendingKeys(content))
            && PendingKeys(content') == PendingKeys(content) - multiset{Key(taskId)}
            && OpenWithoutId(ParseTasks(content')) == OpenWithoutId(ParseTasks(content))
  {
    hide CheckOffContent, TaskAt, TickedTask, Key, Keys, UncheckedIds, Ticked, OpenWithoutId;
    CheckOffPreservesParse(content, taskId);
    var lines, key := LinesOf(content), Key(taskId);
    var (content', flipped) := CheckOffContent(content, taskId);
    PendingKeyHasALine(lines, |lines|, key);
    if flipped {
      var k: nat :| IsFirstPending(lines, k, key) && SameButTicked(lines, k, LinesOf(content'));
      TickedTaskIsChecked(TaskAt(lines, k).value);
      TickingRemovesOneKey(ParseTasks(content), TasksAbove(lines, k), TickedTask(TaskAt(lines, k).value));
    }
  }

  lemma TickedTaskIsChecked(t: TaskLine)
    requires Spanned(t)
    ensures TickedTask(t).checkbox == Checked && TickedTask(t).taskId == t.taskId
  {}

  /** The document after a run of calls. */
  function Run(content: string, ids: seq<string>): string
    decreases |ids|
  {
    hide *;
    if ids == [] then content else Run(CheckOffContent(content, ids[0]).0, ids[1..])
  }

  /** How many calls of a run flipped a box. */
  function Flipped(content: string, ids: seq<string>): nat
    decreases |ids|
  {
    hide *;
    if ids == [] then 0
    else
      var (content', flipped) := CheckOffContent(content, ids[0]);
      (if flipped then 1 else 0) + Flipped(content', ids[1..])
  }

  lemma {:induction false} KeysCons(ids: seq<string>)
    requires ids != []
    ensures Keys(ids) == multiset{Key(ids[0])} + Keys(ids[1..])
    ensures |Keys(ids)| == |ids|
    decreases |ids|
  {
    hide Key, Keys;
    KeysOfNone();
    var n := |ids| - 1;
    var init, last, tail := ids[..n], ids[n], ids[1..];
    assert ids == init + [last];
    KeysSnoc(init, last);
    if n == 0 {
      assert init == [] && tail == [];
    } else {
      KeysCons(init);
      assert tail == init[1..] + [last];
      KeysSnoc(init[1..], last);
    }
  }

  /** Conservation over every run of calls, with ids in any order, repeated, unknown or
      spelled in another case: the ids still pending are the ones that were, minus the
      ones asked for, and each box that flipped accounts for one of them. */
  lemma {:induction false} RunConservesPending(content: string, ids: seq<string>)
    ensures PendingKeys(Run(content, ids)) == PendingKeys(content) - Keys(ids)
    ensures Flipped(content, ids) == |PendingKeys(content)| - |PendingKeys(Run(content, ids))|
    ensures OpenWithoutId(ParseTasks(Run(content, ids))) == OpenWithoutId(ParseTasks(content))
    decreases |ids|
  {
    hide CheckOffContent, PendingKeys, OpenWithoutId, ParseTasks, Key;
    if ids != [] {
      CheckOffRemovesOneKey(content, ids[0]);
      RunConservesPending(CheckOffContent(content, ids[0]).0, ids[1..]);
      KeysCons(ids);
    }
  }

  /** Draining a plan: asking once for every pending id, in any order and any spelling,
      flips a box on every call and leaves no id pending; boxes without an id stay open. */
  lemma DrainAnyOrder(content: string, ids: seq<string>)
    requires Keys(ids) == Keys(UncheckedTaskIds(content))
    ensures Flipped(content, ids) == |ids|
    ensures UncheckedTaskIds(Run(content, ids)) == []
    ensures OpenWithoutId(ParseTasks(Run(content, ids))) == OpenWithoutId(ParseTasks(content))
  {
    hide UncheckedTaskIds, Run, Flipped, Key, OpenWithoutId, ParseTasks;
    RunConservesPending(content, ids);
    if ids != [] { KeysCons(ids); }
    if UncheckedTaskIds(Run(content, ids)) != [] { KeysCons(UncheckedTaskIds(Run(content, ids))); }
  }
}
