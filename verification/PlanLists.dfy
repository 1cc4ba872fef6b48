/** The lists read off a plan, by the lines they come from (src/plan_parse.rs). */
module PlanLists {
  import opened Text
  import opened TaskLines
  import opened Lines
  import opened PlanDocument
  import opened FenceBlocks

  /** Line `k` is in no block and is no delimiter. */
  ghost predicate IsPlainLine(lines: seq<string>, k: nat)
    requires k < |lines|
  {
    !InsideBlock(lines, k) && forall c, m: nat :: !IsDelimiter(lines[k], c, m)
  }

  /** The lines kept for scanning are those in no block that are no delimiter, each with its text,
      in order and none missing. */
  ghost predicate KeepsExactly(lines: seq<string>, n: nat, kept: seq<(nat, string)>)
    requires n <= |lines|
  {
    && (forall j | 0 <= j < |kept| :: kept[j].0 < n && kept[j].1 == lines[kept[j].0])
    && (forall j, k | 0 <= j < k < |kept| :: kept[j].0 < kept[k].0)
    && (forall k: nat | k < n ::
          (exists j | 0 <= j < |kept| :: kept[j].0 == k) <==> IsPlainLine(lines, k))
  }

  lemma {:induction false} KeptLinesExactly(lines: seq<string>, n: nat)
    requires n <= |lines|
    ensures KeepsExactly(lines, n, ScannableUpTo(lines, n))
  {
    hide Scannable, InsideBlock, IsDelimiter;
    if n > 0 {
      KeptLinesExactly(lines, n - 1);
      ScannableExactlyWhen(lines, n - 1);
      var before := ScannableUpTo(lines, n - 1);
      assert before + [] == before;
      OneMoreKept(lines, n, before, Scannable(lines, n - 1));
    }
  }

  lemma OneMoreKept(lines: seq<string>, n: nat, before: seq<(nat, string)>, scanned: bool)
    requires 0 < n <= |lines| && KeepsExactly(lines, n - 1, before)
    requires scanned <==> IsPlainLine(lines, n - 1)
    ensures KeepsExactly(lines, n, before + (if scanned then [(n - 1, lines[n - 1])] else []))
  {
    hide IsPlainLine;
    var kept := before + (if scanned then [(n - 1, lines[n - 1])] else []);
    assert forall j | 0 <= j < |before| :: kept[j] == before[j];
    forall k: nat | k < n
      ensures (exists j | 0 <= j < |kept| :: kept[j].0 == k) <==> IsPlainLine(lines, k)
    {
      if k < n - 1 {
        if j :| 0 <= j < |before| && before[j].0 == k { assert kept[j].0 == k; }
        if j :| 0 <= j < |kept| && kept[j].0 == k { assert before[j].0 == k; }
      } else if scanned {
        assert kept[|before|].0 == k;
      }
    }
  }

  /** The tasks of a plan are its task lines, each under its own line number, in order and none
      missing. */
  ghost predicate ListsTasks(lines: seq<string>, n: nat, tasks: seq<TaskLine>)
    requires n <= |lines|
  {
    && (forall t | t in tasks :: t.lineNumber < n && TaskAt(lines, t.lineNumber) == Some(t))
    && (forall j, k | 0 <= j < k < |tasks| :: tasks[j].lineNumber < tasks[k].lineNumber)
    && (forall k: nat | k < n && TaskAt(lines, k).Some? :: TaskAt(lines, k).value in tasks)
  }

  lemma TaskHasItsNumber(lines: seq<string>, k: nat)
    requires k < |lines| && TaskAt(lines, k).Some?
    ensures TaskAt(lines, k).value.lineNumber == k
  {
    hide Scannable;
  }

  lemma {:induction false} TasksExactly(lines: seq<string>, n: nat)
    requires n <= |lines|
    ensures ListsTasks(lines, n, TasksUpTo(lines, n))
  {
    hide TaskAt, ListsTasks;
    if n == 0 {
      NoTasks(lines);
    } else {
      TasksExactly(lines, n - 1);
      var t := TaskAt(lines, n - 1);
      if t.Some? { TaskHasItsNumber(lines, n - 1); }
      OneMoreTask(lines, n, TasksUpTo(lines, n - 1), t);
    }
  }

  lemma NoTasks(lines: seq<string>) ensures ListsTasks(lines, 0, []) {}

  lemma OneMoreTask(lines: seq<string>, n: nat, before: seq<TaskLine>, t: Option<TaskLine>)
    requires 0 < n <= |lines| && ListsTasks(lines, n - 1, before) && t == TaskAt(lines, n - 1)
    requires t.Some? ==> t.value.lineNumber == n - 1
    ensures ListsTasks(lines, n, before + (match t case None => [] case Some(x) => [x]))
  {
    hide TaskAt;
    match t
    case None => assert before + [] == before;
    case Some(x) =>
      var tasks := before + [x];
      assert forall y :: y in tasks <==> y in before || y == x;
      assert forall j | 0 <= j < |before| :: tasks[j] == before[j] && before[j] in before;
  }

  /** `ids` are the ids of the pending tasks at the positions `ps`, in order and none missing. */
  ghost predicate ListsPending(tasks: seq<TaskLine>, ids: seq<string>, ps: seq<nat>) {
    && |ps| == |ids|
    && (forall j | 0 <= j < |ps| ::
          ps[j] < |tasks| && tasks[ps[j]].checkbox == Unchecked && tasks[ps[j]].taskId == Some(ids[j]))
    && (forall j, k | 0 <= j < k < |ps| :: ps[j] < ps[k])
    && (forall k: nat | k < |tasks| && tasks[k].checkbox == Unchecked && tasks[k].taskId.Some? :: k in ps)
  }

  /** The pending ids come in the order of the document, one for every open box with an id. */
  lemma {:induction false} PendingIdsExactly(tasks: seq<TaskLine>)
    ensures exists ps :: ListsPending(tasks, UncheckedIds(tasks), ps)
    decreases |tasks|
  {
    hide ListsPending, UncheckedIds;
    if tasks == [] {
      NoPendingIds();
    } else {
      var n := |tasks| - 1;
      PendingIdsExactly(tasks[..n]);
      var ps :| ListsPending(tasks[..n], UncheckedIds(tasks[..n]), ps);
      OneMorePending(tasks, UncheckedIds(tasks[..n]), ps);
      UncheckedSnoc(tasks);
    }
  }

  lemma UncheckedSnoc(tasks: seq<TaskLine>)
    requires tasks != []
    ensures var t := tasks[|tasks| - 1];
            UncheckedIds(tasks) == UncheckedIds(tasks[..|tasks| - 1])
              + (if t.checkbox == Unchecked && t.taskId.Some? then [t.taskId.value] else [])
  {}

  lemma NoPendingIds() ensures ListsPending([], UncheckedIds([]), []) {}

  lemma OneMorePending(tasks: seq<TaskLine>, ids: seq<string>, ps: seq<nat>)
    requires tasks != [] && ListsPending(tasks[..|tasks| - 1], ids, ps)
    ensures var n, t := |tasks| - 1, tasks[|tasks| - 1];
            var pending := t.checkbox == Unchecked && t.taskId.Some?;
            ListsPending(tasks, ids + (if pending then [t.taskId.value] else []), ps + (if pending then [n] else []))
  {
    var n, init := |tasks| - 1, tasks[..|tasks| - 1];
    assert forall k | 0 <= k < n :: init[k] == tasks[k];
    if tasks[n].checkbox == Unchecked && tasks[n].taskId.Some? {
      var ps' := ps + [n];
      assert forall j | 0 <= j < |ps| :: ps'[j] == ps[j];
      assert ps'[|ps|] == n;
      assert forall k :: k in ps' <==> k in ps || k == n;
    } else {
      assert ids + [] == ids && ps + [] == ps;
    }
  }
}
