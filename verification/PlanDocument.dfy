/** Whole plan documents: fenced code, task lists, check-off and newline normalization
    (src/plan_parse.rs). */
module PlanDocument {
  import opened Text
  import opened TaskId
  import opened TaskLines
  import opened Lines

  // ----- Fenced code blocks

  datatype Fence = Outside | Inside(ch: char, len: nat)

  /** A run of three or more backticks or tildes after leading whitespace. */
  function FenceDelimiter(line: string): Option<(char, nat)> {
    var t := TrimStart(line);
    if t == [] || (t[0] != '`' && t[0] != '~') then None
    else
      var run := SkipWhile(c => c == t[0], t, 0);
      if run < 3 then None else Some((t[0], run))
  }

  function FenceStep(state: Fence, line: string): Fence {
    match (state, FenceDelimiter(line))
    case (Outside, Some((ch, len))) => Inside(ch, len)
    case (Outside, None) => Outside
    case (Inside(ch, len), Some((c, l))) => if c == ch && l >= len then Outside else state
    case (Inside(_, _), None) => state
  }

  /** The fence state before line `k`. */
  function StateAt(lines: seq<string>, k: nat): Fence
    requires k <= |lines|
  {
    if k == 0 then Outside else FenceStep(StateAt(lines, k - 1), lines[k - 1])
  }

  predicate Scannable(lines: seq<string>, k: nat)
    requires k < |lines|
  {
    StateAt(lines, k) == Outside && FenceDelimiter(lines[k]) == None
  }

  function ScannableUpTo(lines: seq<string>, n: nat): seq<(nat, string)>
    requires n <= |lines|
  {
    if n == 0 then []
    else ScannableUpTo(lines, n - 1) + (if Scannable(lines, n - 1) then [(n - 1, lines[n - 1])] else [])
  }

  method ScannableLines(text: string) returns (kept: seq<(nat, string)>)
    ensures kept == ScannableUpTo(LinesOf(text), |LinesOf(text)|)
  {
    hide FenceDelimiter;
    var lines := LinesOf(text);
    kept := [];
    var state := Outside;
    for idx := 0 to |lines|
      invariant state == StateAt(lines, idx) && kept == ScannableUpTo(lines, idx)
    {
      match (state, FenceDelimiter(lines[idx]))
      case (Outside, Some((ch, len))) => state := Inside(ch, len);
      case (Outside, None) => kept := kept + [(idx, lines[idx])];
      case (Inside(ch, len), Some((c, l))) => if c == ch && l >= len { state := Outside; }
      case (Inside(_, _), None) =>
    }
  }

  /** Line `k` is among the kept ones. */
  predicate Kept(kept: seq<(nat, string)>, k: nat) { exists j | 0 <= j < |kept| :: kept[j].0 == k }

  lemma KeptSnoc(kept: seq<(nat, string)>, last: (nat, string), k: nat)
    ensures Kept(kept + [last], k) <==> Kept(kept, k) || last.0 == k
  {
    var all := kept + [last];
    assert all[|kept|] == last;
    assert forall j | 0 <= j < |kept| :: all[j] == kept[j];
  }

  lemma {:induction false} KeptIsScannable(lines: seq<string>, n: nat, k: nat)
    requires n <= |lines| && k < |lines|
    ensures Kept(ScannableUpTo(lines, n), k) <==> k < n && Scannable(lines, k)
  {
    hide Scannable, Kept;
    if n == 0 {
      NothingKept(k);
    } else {
      KeptIsScannable(lines, n - 1, k);
      var before := ScannableUpTo(lines, n - 1);
      KeptSnoc(before, (n - 1, lines[n - 1]), k);
      assert before + [] == before;
    }
  }

  lemma NothingKept(k: nat) ensures !Kept([], k) {}

  // ----- Task lists

  /** The task on line `k`, if that line is outside every fence and is a task line. */
  function TaskAt(lines: seq<string>, k: nat): (t: Option<TaskLine>)
    requires k < |lines|
    ensures t.Some? ==> t.value.raw == lines[k] && Spanned(t.value)
  {
    if Scannable(lines, k) then ParseTaskLineAt(lines[k], k) else None
  }

  function TasksUpTo(lines: seq<string>, n: nat): seq<TaskLine>
    requires n <= |lines|
  {
    if n == 0 then []
    else TasksUpTo(lines, n - 1) + (match TaskAt(lines, n - 1) case None => [] case Some(t) => [t])
  }

  function ParseTasks(text: string): seq<TaskLine> { TasksUpTo(LinesOf(text), |LinesOf(text)|) }

  /** The ids of the pending tasks, in document order. */
  function UncheckedIds(tasks: seq<TaskLine>): seq<string> {
    if tasks == [] then []
    else
      var t := tasks[|tasks| - 1];
      UncheckedIds(tasks[..|tasks| - 1])
      + (if t.checkbox == Unchecked && t.taskId.Some? then [t.taskId.value] else [])
  }

  function UncheckedTaskIds(text: string): seq<string> { UncheckedIds(ParseTasks(text)) }

  /** How many open boxes carry no id at all. */
  function OpenWithoutId(tasks: seq<TaskLine>): nat {
    if tasks == [] then 0
    else
      var t := tasks[|tasks| - 1];
      OpenWithoutId(tasks[..|tasks| - 1]) + (if t.checkbox == Unchecked && t.taskId == None then 1 else 0)
  }

  /** The task line owning `taskId`, checked or not. */
  function FindTaskLine(text: string, taskId: string): Option<TaskLine> {
    if Normalize(taskId) == [] then None else FirstOwner(ParseTasks(text), taskId)
  }

  function FirstOwner(tasks: seq<TaskLine>, taskId: string): Option<TaskLine> {
    if tasks == [] then None
    else if tasks[0].taskId.Some? && TaskIdEq(tasks[0].taskId.value, taskId) then Some(tasks[0])
    else FirstOwner(tasks[1..], taskId)
  }

  // ----- Check-off

  /** Line `k` is a candidate of the call that ticks `taskId`. */
  predicate Flips(lines: seq<string>, k: nat, taskId: string)
    requires k < |lines|
  {
    Scannable(lines, k) && CheckOffLine(lines[k], taskId).Some?
  }

  function FlipFlags(lines: seq<string>, taskId: string): (flags: seq<bool>)
    ensures |flags| == |lines|
    ensures forall k {:trigger flags[k]} {:trigger Flips(lines, k, taskId)} | 0 <= k < |lines| ::
              flags[k] == Flips(lines, k, taskId)
  {
    seq(|lines|, k requires 0 <= k < |lines| => Flips(lines, k, taskId))
  }

  function FirstFlip(lines: seq<string>, taskId: string): (r: Option<nat>)
    ensures r.Some? ==> r.value < |lines|
  {
    FirstTrue(FlipFlags(lines, taskId))
  }

  lemma FirstFlipIsFirst(lines: seq<string>, taskId: string)
    ensures var r := FirstFlip(lines, taskId);
            if r.Some? then Flips(lines, r.value, taskId) && forall j | 0 <= j < r.value :: !Flips(lines, j, taskId)
            else forall j | 0 <= j < |lines| :: !Flips(lines, j, taskId)
  {
    hide Flips;
  }

  function WithBody(cs: seq<Chunk>, k: nat, body: string): seq<Chunk>
    requires k < |cs|
  {
    cs[k := cs[k].(body := body)]
  }

  /** The chunks of the document after ticking the first candidate line, if any. */
  function CheckedChunks(content: string, taskId: string): (cs: seq<Chunk>)
    ensures |cs| == |Chunks(content)|
  {
    var lines := LinesOf(content);
    match FirstFlip(lines, taskId)
    case None => Chunks(content)
    case Some(k) =>
      assert Flips(lines, k, taskId) by { FirstFlipIsFirst(lines, taskId); }
      WithBody(Chunks(content), k, CheckOffLine(lines[k], taskId).value)
  }

  /** The document after a check-off, and whether a box was flipped. */
  function CheckOffContent(content: string, taskId: string): (string, bool) {
    if FirstFlip(LinesOf(content), taskId).None? then (content, false)
    else (Unchunk(CheckedChunks(content, taskId)), true)
  }

  /** What one iteration of the rewriting loop has to write. */
  lemma CheckedChunkAt(content: string, taskId: string, k: nat)
    requires k < |Chunks(content)|
    ensures var lines, first := LinesOf(content), FirstFlip(LinesOf(content), taskId);
            var flip := (first.None? || first.value >= k) && Flips(lines, k, taskId);
            && (flip <==> first == Some(k))
            && CheckedChunks(content, taskId)[k].eol == Chunks(content)[k].eol
            && CheckedChunks(content, taskId)[k].body ==
               (if flip then CheckOffLine(lines[k], taskId).value else lines[k])
  {
    FirstFlipIsFirst(LinesOf(content), taskId);
    hide Flips, CheckOffLine, FirstFlip;
  }

  lemma UnchunkSnoc(cs: seq<Chunk>, k: nat)
    requires k < |cs|
    ensures Unchunk(cs[..k + 1]) == Unchunk(cs[..k]) + (cs[k].body + cs[k].eol)
  {
    assert cs[..k + 1] == cs[..k] + [cs[k]];
    UnchunkAppend(cs[..k], [cs[k]]);
  }

  lemma {:induction false} UnchunkAppend(a: seq<Chunk>, b: seq<Chunk>)
    ensures Unchunk(a + b) == Unchunk(a) + Unchunk(b)
  {
    if a == [] {
      assert a + b == b;
    } else {
      assert (a + b)[1..] == a[1..] + b;
      UnchunkAppend(a[1..], b);
    }
  }

  /** The rewriting loop over newline-inclusive pieces. */
  method CheckOff(content: string, taskId: string) returns (updated: string, flipped: bool)
    ensures (updated, flipped) == CheckOffContent(content, taskId)
  {
    hide Scannable, CheckOffLine, SplitEol, PieceEnd, FirstFlip, CheckedChunks, Kept;
    var scannable := ScannableLines(content);
    ghost var cs, lines, target := Chunks(content), LinesOf(content), CheckedChunks(content, taskId);
    ghost var first := FirstFlip(lines, taskId);
    flipped := false;
    updated := [];
    var idx, rest := 0, content;
    while rest != []
      invariant 0 <= idx <= |cs| && Chunks(rest) == cs[idx..]
      invariant flipped <==> first.Some? && first.value < idx
      invariant updated == Unchunk(target[..idx])
      decreases |rest|
    {
      var chunk := SplitEol(rest[..PieceEnd(rest)]);
      assert chunk == cs[idx] && lines[idx] == chunk.body;
      KeptIsScannable(lines, |lines|, idx);
      CheckedChunkAt(content, taskId, idx);
      UnchunkSnoc(target, idx);
      var body := chunk.body;
      if !flipped && Kept(scannable, idx) {
        var rewritten := CheckOffLine(chunk.body, taskId);
        if rewritten.Some? {
          flipped := true;
          body := rewritten.value;
        }
      }
      updated := updated + (body + chunk.eol);
      rest := rest[PieceEnd(rest)..];
      idx := idx + 1;
    }
    assert target[..idx] == target;
    if !flipped { updated := content; }
  }
}
