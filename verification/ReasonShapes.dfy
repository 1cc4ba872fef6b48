/** Which clause of a failed deliverable is its reason, verdict shape by verdict shape
    (src/markers.rs). */
module ReasonShapes {
  import opened Text
  import opened Patterns
  import opened Counters
  import opened Lines
  import opened TrailingGroups
  import opened FailureReasons
  import opened AbortReasons

  /** The first line of a text that is not blank. */
  ghost predicate IsFirstLine(text: string, line: string) {
    var lines := LinesOf(text);
    exists k: nat :: k < |lines| && lines[k] == line && !All(IsWhitespace, line)
                     && forall j | 0 <= j < k :: All(IsWhitespace, lines[j])
  }

  ghost predicate IsBlankText(text: string) { forall line | line in LinesOf(text) :: All(IsWhitespace, line) }

  lemma {:induction false} FirstNonBlankAt(lines: seq<string>, k: nat)
    requires k <= |lines| && forall j | 0 <= j < k :: All(IsWhitespace, lines[j])
    ensures if k == |lines| then FirstNonBlank(lines) == []
            else !All(IsWhitespace, lines[k]) ==> FirstNonBlank(lines) == lines[k]
    decreases k
  {
    if lines != [] { TrimEmptyIffBlank(lines[0]); }
    hide Trim, All;
    if k > 0 { FirstNonBlankAt(lines[1..], k - 1); }
  }

  lemma FirstLineExactly(text: string)
    ensures forall line | IsFirstLine(text, line) :: FirstNonEmptyLine(text) == line
    ensures IsBlankText(text) ==> FirstNonEmptyLine(text) == []
  {
    hide LinesOf, FirstNonBlank, All;
    var lines := LinesOf(text);
    forall line | IsFirstLine(text, line) ensures FirstNonEmptyLine(text) == line {
      var k: nat :| k < |lines| && lines[k] == line && !All(IsWhitespace, line)
                    && forall j | 0 <= j < k :: All(IsWhitespace, lines[j]);
      FirstNonBlankAt(lines, k);
    }
    if IsBlankText(text) {
      FirstNonBlankAt(lines, |lines|);
    }
  }

  // ----- The three shapes

  /** Behind `REPLAN REQUIRED`: a task in brackets if one follows, a colon if one follows that, and
      the first line of the rest. */
  lemma ReplanClause(w: string, task: string, rest: string)
    requires All(IsWhitespace, w) && !Has(task, ')')
    ensures Clause(OptionalParenThenColonLine, w + Group(task) + [':'] + rest) == Some(FirstNonEmptyLine(rest))
    ensures (rest != [] ==> rest[0] != ':') ==>
              Clause(OptionalParenThenColonLine, w + Group(task) + rest) == Some(FirstNonEmptyLine(rest))
  {
    hide FirstNonEmptyLine, Has, SkipParen, TrimStart, Group, All;
    BracketSkipped(w, task, [':'] + rest);
    BracketSkipped(w, task, rest);
    assert w + Group(task) + [':'] + rest == w + Group(task) + ([':'] + rest);
    ColonSkipped(rest);
    hide SkipColon;
  }

  lemma ColonSkipped(rest: string)
    ensures SkipColon([':'] + rest) == rest
    ensures (rest != [] ==> rest[0] != ':') ==> SkipColon(rest) == rest
  {
    assert ([':'] + rest)[1..] == rest;
  }

  lemma BracketSkipped(w: string, task: string, rest: string)
    requires All(IsWhitespace, w) && !Has(task, ')')
    ensures SkipParen(TrimStart(w + Group(task) + rest)) == rest
  {
    var after := Group(task) + rest;
    StartIsTrimmed(w, after);
    assert w + Group(task) + rest == w + after;
    assert forall k | 0 <= k < |task| :: after[k + 1] == task[k];
    assert after[|task| + 1] == ')';
    assert FindChar(after, ')', 0) == Some(|task| + 1);
  }

  lemma StartIsTrimmed(w: string, after: string)
    requires All(IsWhitespace, w) && (after != [] ==> !IsWhitespace(after[0]))
    ensures TrimStart(w + after) == after
  {
    var s := w + after;
    assert forall k | 0 <= k < |w| :: s[k] == w[k];
    assert after != [] ==> s[|w|] == after[0];
    assert SkipWhile(IsWhitespace, s, 0) == |w|;
  }

  /** Without a bracket the colon is skipped, and an open bracket is part of the reason. */
  lemma BareReplanClause(w: string, rest: string)
    requires All(IsWhitespace, w)
    ensures Clause(OptionalParenThenColonLine, w + [':'] + rest) == Some(FirstNonEmptyLine(rest))
    ensures (rest != [] ==> rest[0] != ':' && rest[0] != '(' && !IsWhitespace(rest[0])) ==>
              Clause(OptionalParenThenColonLine, w + rest) == Some(FirstNonEmptyLine(rest))
    ensures (rest != [] && rest[0] == '(' && !Has(rest, ')')) ==>
              Clause(OptionalParenThenColonLine, w + rest) == Some(FirstNonEmptyLine(rest))
  {
    hide FirstNonEmptyLine, TrimStart;
    StartIsTrimmed(w, [':'] + rest);
    assert w + [':'] + rest == w + ([':'] + rest);
    assert ([':'] + rest)[1..] == rest;
    if rest == [] || !IsWhitespace(rest[0]) { StartIsTrimmed(w, rest); }
  }

  // ----- Whole deliverables

  /** `w` first occurs at `t`. */
  ghost predicate FirstAt(text: string, w: string, t: nat) {
    t + |w| <= |text| && text[t..t + |w|] == w && forall i: nat | i < t :: !OccursAt(text, w, i)
  }

  lemma FirstIsFound(text: string, w: string, t: nat)
    requires FirstAt(text, w, t)
    ensures Find(text, w, 0) == Some(t)
  {
    forall k | 0 <= k < |w| ensures text[t + k] == w[k] { assert text[t..t + |w|][k] == text[t + k]; }
    assert OccursAt(text, w, t);
    hide OccursAt;
    FoundFirst(text, w, t);
  }

  /** `REPLAN REQUIRED (task): reason` and `REPLAN REQUIRED: reason` say their reason, ahead of any
      failure verdict. */
  lemma ReplanReasonIsRead(text: string, t: nat, w: string, task: Option<string>, rest: string, line: string)
    requires FirstAt(text, "REPLAN REQUIRED", t) && IsFirstLine(rest, line) && All(IsWhitespace, w)
    requires task.Some? ==> !Has(task.value, ')')
    requires text[t + 15..] == w + (if task.Some? then Group(task.value) else []) + [':'] + rest
    ensures FailureReason(text) == Some(Trim(line))
  {
    hide FirstAt, IsFirstLine, Clause, Group, FailureReason, Has, All;
    FirstIsFound(text, "REPLAN REQUIRED", t);
    FirstLineExactly(rest);
    LineIsNotBlank(rest, line);
    if task.Some? {
      ReplanClause(w, task.value, rest);
    } else {
      BareReplanClause(w, rest);
      assert w + [] == w;
    }
    TableWalk(text);
    FirstFits(text, "REPLAN REQUIRED", t);
    hide Find, Trim;
    WalkStops(text, FailureVerdict(REPLAN, OptionalParenThenColonLine),
              [FailureVerdict(FAILED_PAREN, Parenthesis)] + [FailureVerdict(FAILED_COLON, ColonLine)], t, line);
  }

  lemma FirstFits(text: string, w: string, t: nat)
    requires FirstAt(text, w, t)
    ensures t + |w| <= |text|
  {}

  lemma LineIsNotBlank(text: string, line: string)
    requires IsFirstLine(text, line)
    ensures Trim(line) != []
  {
    TrimEmptyIffBlank(line);
    hide LinesOf, Trim;
  }

  lemma NowhereFound(text: string, w: string)
    requires !Contains(text, w)
    ensures Find(text, w, 0) == None
  {
    hide OccursAt;
    if Find(text, w, 0).Some? { OccurrenceFits(text, w, Find(text, w, 0).value); }
  }

  lemma ShapeLiterals()
    ensures REPLAN == "REPLAN REQUIRED" && FAILED_PAREN == "FAILED (" && FAILED_COLON == "FAILED:"
  {}

  /** `FAILED (reason)` says what is in its brackets. */
  lemma BracketReasonIsRead(text: string, t: nat, reason: string, rest: string)
    requires !Contains(text, "REPLAN REQUIRED") && FirstAt(text, "FAILED (", t)
    requires !Has(reason, ')') && !All(IsWhitespace, reason) && text[t + 8..] == reason + [')'] + rest
    ensures FailureReason(text) == Some(Trim(reason))
  {
    hide FirstAt, Clause, FailureReason, Has, All, Contains;
    ShapeLiterals();
    NowhereFound(text, "REPLAN REQUIRED");
    FirstIsFound(text, "FAILED (", t);
    FirstFits(text, "FAILED (", t);
    TrimEmptyIffBlank(reason);
    BracketClause(text[t + 8..], reason);
    TableWalk(text);
    hide Find, Trim, REPLAN, FAILED_PAREN, FAILED_COLON;
    var second, third := FailureVerdict(FAILED_PAREN, Parenthesis), [FailureVerdict(FAILED_COLON, ColonLine)];
    WalkSkips(text, FailureVerdict(REPLAN, OptionalParenThenColonLine), [second] + third);
    WalkStops(text, second, third, t, reason);
  }

  /** `FAILED: reason` says the first line behind the colon that is not blank. */
  lemma ColonReasonIsRead(text: string, t: nat, line: string)
    requires !Contains(text, "REPLAN REQUIRED") && !Contains(text, "FAILED (") && FirstAt(text, "FAILED:", t)
    requires t + 7 <= |text| && IsFirstLine(text[t + 7..], line)
    ensures FailureReason(text) == Some(Trim(line))
  {
    hide FirstAt, IsFirstLine, Clause, FailureReason, Contains;
    ShapeLiterals();
    NowhereFound(text, "REPLAN REQUIRED");
    NowhereFound(text, "FAILED (");
    FirstIsFound(text, "FAILED:", t);
    FirstLineExactly(text[t + 7..]);
    LineIsNotBlank(text[t + 7..], line);
    ColonClause(text[t + 7..]);
    TableWalk(text);
    hide Find, Trim, FirstNonEmptyLine;
    var second, third := FailureVerdict(FAILED_PAREN, Parenthesis), FailureVerdict(FAILED_COLON, ColonLine);
    WalkSkips(text, FailureVerdict(REPLAN, OptionalParenThenColonLine), [second] + [third]);
    WalkSkips(text, second, [third]);
    assert [third] + [] == [third];
    WalkStops(text, third, [], t, line);
  }
}
