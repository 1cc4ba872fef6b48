/** The fence automaton against the documented rule for closing fences (src/plan_parse.rs). */
module Fences {
  import opened Text
  import opened TaskId
  import opened TaskLines
  import opened Lines
  import opened PlanDocument
  import opened CheckOffTheorems
  import opened Newlines

  /** A fence delimiter with something but whitespace behind its run. */
  predicate HasInfo(line: string) {
    var t := TrimStart(line);
    t != [] && Trim(t[SkipWhile(c => c == t[0], t, 0)..]) != []
  }

  /** The documented automaton: a delimiter with an info string never closes a block. */
  function StrictStep(state: Fence, line: string): Fence {
    if state.Inside? && HasInfo(line) then state else FenceStep(state, line)
  }

  function StrictStateAt(lines: seq<string>, k: nat): Fence
    requires k <= |lines|
  {
    if k == 0 then Outside else StrictStep(StrictStateAt(lines, k - 1), lines[k - 1])
  }

  /** Line `k` closes a block although it carries an info string. */
  predicate ClosesWithInfo(lines: seq<string>, k: nat)
    requires k < |lines|
  {
    StateAt(lines, k).Inside? && FenceStep(StateAt(lines, k), lines[k]) == Outside && HasInfo(lines[k])
  }

  ghost predicate AgreeUpTo(lines: seq<string>, n: nat)
    requires n <= |lines|
  {
    forall k | 0 <= k <= n :: StateAt(lines, k) == StrictStateAt(lines, k)
  }

  /** The automaton keeps to the documented rule exactly on documents in which no closing
      line carries an info string. */
  lemma {:induction false} StrictExactlyWhen(lines: seq<string>, n: nat)
    requires n <= |lines|
    ensures AgreeUpTo(lines, n) <==> forall k | 0 <= k < n :: !ClosesWithInfo(lines, k)
  {
    hide FenceStep, HasInfo;
    if n > 0 {
      StrictExactlyWhen(lines, n - 1);
      if AgreeUpTo(lines, n - 1) { StepsAgree(lines, n - 1); }
      assert AgreeUpTo(lines, n) <==> AgreeUpTo(lines, n - 1) && StateAt(lines, n) == StrictStateAt(lines, n);
    } else {
      assert StateAt(lines, 0) == StrictStateAt(lines, 0);
    }
  }

  lemma StepsAgree(lines: seq<string>, k: nat)
    requires k < |lines| && StateAt(lines, k) == StrictStateAt(lines, k)
    ensures StateAt(lines, k + 1) == StrictStateAt(lines, k + 1) <==> !ClosesWithInfo(lines, k)
  {
    hide FenceDelimiter, HasInfo;
  }

  // ----- A document on which the rule matters

  const OPENING: string := "```"
  const CLOSING: string := "```rust"

  lemma DelimitersOfTheExample()
    ensures FenceDelimiter(OPENING) == Some(('`', 3)) && FenceDelimiter(CLOSING) == Some(('`', 3))
    ensures HasInfo(CLOSING)
  {
    var ticks: char -> bool := c => c == '`';
    RunEndsUnique(IsWhitespace, OPENING, 0, 0);
    RunEndsUnique(IsWhitespace, CLOSING, 0, 0);
    assert OPENING[0..] == OPENING && CLOSING[0..] == CLOSING;
    RunEndsUnique(c => c == OPENING[0], OPENING, 0, 3);
    RunEndsUnique(c => c == CLOSING[0], CLOSING, 0, 3);
    assert CLOSING[3..] == "rust";
    TrimmedStays("rust");
  }

  lemma LinesOfTheExample()
    ensures LinesOf(OPENING + LF + (CLOSING + LF + PENDING_LINE)) == [OPENING, CLOSING, PENDING_LINE]
  {
    OnlyLine(PENDING_LINE);
    FirstLine(CLOSING, PENDING_LINE);
    FirstLine(OPENING, CLOSING + LF + PENDING_LINE);
    hide LinesOf;
  }

  /** A block opened on the first line, closed with an info string on the second. */
  lemma StatesOfABlock(lines: seq<string>, ch: char, len: nat)
    requires |lines| == 3 && FenceDelimiter(lines[0]) == FenceDelimiter(lines[1]) == Some((ch, len))
    requires HasInfo(lines[1]) && FenceDelimiter(lines[2]) == None
    ensures ClosesWithInfo(lines, 1) && StrictStateAt(lines, 2) == Inside(ch, len) && Scannable(lines, 2)
  {
    hide FenceDelimiter, HasInfo;
    assert StateAt(lines, 0) == Outside == StrictStateAt(lines, 0);
    assert StateAt(lines, 1) == Inside(ch, len) == StrictStateAt(lines, 1);
  }

  /** Behind a closing line with an info string, check-off ticks a line that is still quoted
      by the documented rule. */
  lemma CheckOffTicksAQuotedLine()
    ensures var text := OPENING + LF + (CLOSING + LF + PENDING_LINE);
            && LinesOf(text) == [OPENING, CLOSING, PENDING_LINE]
            && StrictStateAt(LinesOf(text), 2).Inside? && CheckOffContent(text, "t-1").1
  {
    hide Scannable, IsFirstPending, TicksLine, Key, ParseTaskLineAt, HeadBox, LinesOf, CheckOffContent,
      StrictStateAt, StateAt, FenceDelimiter, HasInfo;
    var text, lines := OPENING + LF + (CLOSING + LF + PENDING_LINE), [OPENING, CLOSING, PENDING_LINE];
    LinesOfTheExample();
    DelimitersOfTheExample();
    PendingLineParses(2);
    TaskLineIsNoFence(PENDING_LINE);
    StatesOfABlock(lines, '`', 3);
    CheckOffTicksFirstPending(text, "t-1");
    assert IsPending(TaskAt(lines, 2), Key("t-1"));
  }
}
