/** Exactly which blueprints come back as they were printed (src/agents/prompt_builder.rs). */
module BlueprintExactness {
  import opened Text
  import opened Lines
  import opened Blueprint
  import opened BlueprintRoundTrip

  /** Values the quotes around them do not run into, and nothing the reader drops or trims. */
  ghost predicate Plain(b: AgentBlueprint) {
    && Trimmed(IsQuote, b.roleName) && NoQuotes(b.reasoning)
    && PlainItems(b.selectedSkills) && PlainItems(b.allowedTools)
    && (b.taskId.Some? ==> Trimmed(IsQuote, b.taskId.value) && b.taskId.value != [])
    && Trimmed(IsWhitespace, b.systemPrompt)
  }

  ghost predicate PlainItems(items: seq<string>) {
    forall i | 0 <= i < |items| :: Trimmed(IsQuote, items[i]) && items[i] != []
  }

  lemma UnquotedExactlyWhen(s: string)
    ensures Unquoted(s) == s <==> Trimmed(IsQuote, s)
    ensures |Unquoted(s)| <= |s|
  {
    var pre, post := TrimWhileParts(IsQuote, s);
    if Trimmed(IsQuote, s) { PlainIsUnquoted(s); }
  }

  lemma {:induction false} KeptIsShorter(items: seq<string>)
    ensures |ItemsBack(items)| <= |items|
    decreases |items|
  {
    hide Unquoted;
    if items != [] { KeptIsShorter(items[1..]); }
  }

  lemma {:induction false} KeptExactlyWhen(items: seq<string>)
    ensures ItemsBack(items) == items <==> PlainItems(items)
    decreases |items|
  {
    hide Unquoted, Trimmed;
    if items != [] {
      var rest := items[1..];
      assert items == [items[0]] + rest;
      UnquotedExactlyWhen(items[0]);
      KeptExactlyWhen(rest);
      KeptIsShorter(rest);
      assert PlainItems(items) <==> Trimmed(IsQuote, items[0]) && items[0] != [] && PlainItems(rest) by {
        assert forall i | 1 <= i < |items| :: items[i] == rest[i - 1];
      }
      hide PlainItems;
      if ItemsBack(items) == items {
        assert |ItemsBack(items)| == |items|;
        assert ItemsBack(items)[1..] == ItemsBack(rest);
      }
    }
  }

  lemma TaskIdExactlyWhen(taskId: Option<string>)
    ensures ReadTaskId(match taskId case None => [] case Some(id) => id) == taskId
            <==> (taskId.Some? ==> Trimmed(IsQuote, taskId.value) && taskId.value != [])
  {
    PlainIsUnquoted([]);
    if taskId.Some? { UnquotedExactlyWhen(taskId.value); }
    hide Unquoted, Trimmed;
  }

  lemma PromptExactlyWhen(prompt: string)
    ensures Trim(prompt) == prompt <==> Trimmed(IsWhitespace, prompt)
  {
    var pre, post := TrimWhileParts(IsWhitespace, prompt);
    if Trimmed(IsWhitespace, prompt) { TrimmedStays(prompt); }
  }

  lemma ReadBackExactlyWhen(b: AgentBlueprint)
    ensures ReadBack(b) == b <==> Plain(b)
  {
    UnquotedExactlyWhen(b.roleName);
    ReasoningSurvivesExactlyWhen(b.reasoning);
    KeptExactlyWhen(b.selectedSkills);
    KeptExactlyWhen(b.allowedTools);
    TaskIdExactlyWhen(b.taskId);
    PromptExactlyWhen(b.systemPrompt);
    hide Unquoted, Escaped, ItemsBack, Trim, ReadTaskId, Trimmed, NoQuotes, PlainItems;
  }

  // ----- What any reading looks like

  ghost predicate OneLineEach(items: seq<string>) { forall i | 0 <= i < |items| :: NoNewline(items[i]) }

  ghost predicate OneLineFront(st: Front) {
    && NoNewline(st.roleName) && NoNewline(st.reasoning) && OneLineEach(st.skills) && OneLineEach(st.tools)
    && (st.taskId.Some? ==> NoNewline(st.taskId.value))
  }

  lemma TrimmedIsInside(p: char -> bool, s: string)
    requires NoNewline(s)
    ensures NoNewline(TrimWhile(p, s)) && NoNewline(TrimStartWhile(p, s))
  {}

  lemma PushKeepsOneLine(st: Front, item: string)
    requires OneLineFront(st) && NoNewline(item)
    ensures OneLineFront(Push(st, item))
  {
    hide NoNewline;
  }

  lemma FieldKeepsOneLine(st: Front, field: Field, value: string)
    requires OneLineFront(st) && NoNewline(value)
    ensures OneLineFront(SetField(st, field, value))
  {
    hide NoNewline, OneLineEach;
  }

  lemma ValueIsOneLine(l: string, k: nat)
    requires NoNewline(l) && k <= |l|
    ensures NoNewline(Unquoted(Trim(l[k..])))
  {
    assert NoNewline(l[k..]);
    TrimmedIsInside(IsWhitespace, l[k..]);
    TrimmedIsInside(IsQuote, Trim(l[k..]));
  }

  lemma PairKeepsOneLine(st: Front, l: string)
    requires OneLineFront(st) && NoNewline(l)
    ensures OneLineFront(ReadPair(st, l))
  {
    hide NoNewline, FieldOf, Lower, OneLineFront, Unquoted, Trim, SetField;
    var r := FindChar(l, ':', 0);
    if r.Some? {
      ValueIsOneLine(l, r.value + 1);
      FieldKeepsOneLine(st, FieldOf(Lower(Trim(l[..r.value]))), Unquoted(Trim(l[r.value + 1..])));
    }
  }

  lemma LineKeepsOneLine(st: Front, line: string)
    requires OneLineFront(st) && NoNewline(line)
    ensures OneLineFront(ReadLine(st, line))
  {
    var l := Trim(line);
    TrimmedIsInside(IsWhitespace, line);
    TrimmedIsInside(IsQuote, l);
    TrimmedIsInside(IsBulletOrBlank, l);
    var t := TrimStartWhile(IsBulletOrBlank, l);
    TrimmedIsInside(IsWhitespace, t);
    TrimmedIsInside(IsQuote, Trim(t));
    hide Trim, TrimWhile, TrimStartWhile, NoNewline, OneLineEach, Push, ReadPair;
    PushKeepsOneLine(st, Unquoted(Trim(t)));
    PushKeepsOneLine(st, Unquoted(l));
    PairKeepsOneLine(st, l);
    PairKeepsOneLine(st.(list := NoList), l);
  }

  lemma {:induction false} LinesKeepOneLine(st: Front, lines: seq<string>)
    requires OneLineFront(st) && OneLineEach(lines)
    ensures OneLineFront(ReadLines(st, lines))
    decreases |lines|
  {
    hide ReadLine, OneLineFront, NoNewline;
    if lines != [] {
      LineKeepsOneLine(st, lines[0]);
      LinesKeepOneLine(ReadLine(st, lines[0]), lines[1..]);
    }
  }

  lemma ReadingIsOneLine(f: string)
    ensures OneLineFront(ReadLines(START, LinesOf(f)))
  {
    ChunksRoundTrip(f);
    assert OneLineEach(LinesOf(f)) by {
      forall i | 0 <= i < |LinesOf(f)| ensures NoNewline(LinesOf(f)[i]) {
        assert IsChunk(Chunks(f)[i], i == |Chunks(f)| - 1);
      }
    }
    assert OneLineFront(START);
    hide ReadLines, LinesOf, OneLineFront, OneLineEach;
    LinesKeepOneLine(START, LinesOf(f));
  }

  /** Nothing a reading returns holds a newline, and its prompt is trimmed. */
  lemma ParsedIsOneLine(raw: string)
    requires ParseMarkdown(raw).Some?
    ensures var b := ParseMarkdown(raw).value;
            && NoNewline(b.roleName) && NoNewline(b.reasoning) && NoNewline(TaskIdText(b))
            && OneLineEach(b.selectedSkills) && OneLineEach(b.allowedTools) && Trimmed(IsWhitespace, b.systemPrompt)
  {
    var stripped := Trim(raw)[3..];
    var end := Find(stripped, DASHES, 0).value;
    ReadingIsOneLine(stripped[..end]);
    var pre, post := TrimWhileParts(IsWhitespace, stripped[end + 3..]);
    hide ReadLines, LinesOf, OneLineEach, Trimmed, TrimWhile, Find;
  }

  lemma ParsedPromptIsTrimmed(raw: string)
    requires ParseMarkdown(raw).Some?
    ensures Trimmed(IsWhitespace, ParseMarkdown(raw).value.systemPrompt)
  {
    ParsedIsOneLine(raw);
    hide *;
  }

  // ----- Dashes inside the frontmatter never come back

  lemma TrimKeepsEnd(g: string, m: string)
    requires m != [] && !IsWhitespace(m[0]) && !IsWhitespace(m[|m| - 1])
    ensures |Trim(g + m)| >= |m|
  {
    var s := g + m;
    var pre, post := TrimWhileParts(IsWhitespace, s);
    assert s[|g|] == m[0] && s[|s| - 1] == m[|m| - 1];
    StaysInside(IsWhitespace, pre, Trim(s), post, |g|);
    StaysInside(IsWhitespace, pre, Trim(s), post, |s| - 1);
  }

  lemma NothingTrimmedBehindDashes(g: string, prompt: string)
    requires Trimmed(IsWhitespace, prompt)
    ensures |Trim(g + DASHES + Tail(prompt))| > |prompt|
  {
    TailOfTrimmed(prompt);
    var tail := Tail(prompt);
    hide Trim, Tail;
    var m := DASHES + tail;
    assert m[0] == '-' && m[|m| - 1] == (if tail == [] then '-' else tail[|tail| - 1]);
    assert g + DASHES + tail == g + m;
    TrimKeepsEnd(g, m);
  }

  lemma TailOfTrimmed(prompt: string)
    requires Trimmed(IsWhitespace, prompt)
    ensures Tail(prompt) == if prompt == [] then [] else LF + LF + prompt
  {
    PromptExactlyWhen(prompt);
    var pre, post := PromptParts(prompt);
    hide Trim, TrimEnd;
  }

  /** What parsing a printed blueprint cuts off, and where. */
  lemma PrintIsCut(b: AgentBlueprint, createdAt: string) returns (rest: string, e: nat)
    requires ParseMarkdown(Print(b, createdAt)) == Some(b)
    ensures rest == Unlines(FrontLines(b, createdAt)) + DASHES + Tail(b.systemPrompt)
    ensures Find(rest, DASHES, 0) == Some(e) && e + 3 <= |rest| && Trim(rest[e + 3..]) == b.systemPrompt
  {
    var f, tail := Unlines(FrontLines(b, createdAt)), Tail(b.systemPrompt);
    PrintIsUnlines(b, createdAt);
    TrimmedText(f, b.systemPrompt);
    hide Print, Unlines, FrontLines, Tail, Trim, ReadLines, LinesOf, Find;
    rest := f + DASHES + tail;
    assert (DASHES + rest)[3..] == rest;
    e := Find(rest, DASHES, 0).value;
  }

  lemma FrontTextEnds(b: AgentBlueprint, createdAt: string)
    ensures EndsWith(Unlines(FrontLines(b, createdAt)), '\n')
  {
    hide EndsWith, Unlines;
    UnlinesEndsInNewline(FrontLines(b, createdAt));
  }

  /** A reading that returns the printed prompt did not stop inside the frontmatter. */
  lemma CutAtTheEnd(f: string, prompt: string, e: nat)
    requires EndsWith(f, '\n') && Trimmed(IsWhitespace, prompt)
    requires e + 3 <= |f + DASHES + Tail(prompt)| && OccursAt(f + DASHES + Tail(prompt), DASHES, e)
    requires Trim((f + DASHES + Tail(prompt))[e + 3..]) == prompt
    ensures e >= |f|
  {
    hide Trim, Tail, OccursAt, Trimmed;
    var tail := Tail(prompt);
    var rest := f + DASHES + tail;
    DashesOccur(rest, e);
    if e < |f| {
      NoDashesAcross(f, tail, e);
      NothingTrimmedBehindDashes(f[e + 3..], prompt);
    }
  }

  lemma NoDashesAcross(f: string, tail: string, e: nat)
    requires EndsWith(f, '\n') && DashesAt(f + DASHES + tail, e) && e < |f|
    ensures e + 3 <= |f| && (f + DASHES + tail)[e + 3..] == f[e + 3..] + DASHES + tail
  {
    assert (f + DASHES + tail)[|f| - 1] == '\n';
  }

  lemma NoEarlyDashes(f: string, rest: string, prompt: string, e: nat)
    requires EndsWith(f, '\n') && Trimmed(IsWhitespace, prompt) && rest == f + DASHES + Tail(prompt)
    requires Find(rest, DASHES, 0) == Some(e) && e + 3 <= |rest| && Trim(rest[e + 3..]) == prompt
    ensures NoDashes(f)
  {
    hide Trim, Tail, OccursAt, EndsWith, Trimmed, NoDashes;
    CutAtTheEnd(f, prompt, e);
    FirstDashesAreNone(f, rest);
  }

  /** When a printed blueprint reads back as itself, no dashes end its frontmatter early. */
  lemma FrontmatterEndsWhereItShould(b: AgentBlueprint, createdAt: string)
    requires ParseMarkdown(Print(b, createdAt)) == Some(b)
    ensures NoDashes(Unlines(FrontLines(b, createdAt)))
  {
    hide *;
    var rest, e := PrintIsCut(b, createdAt);
    ParsedPromptIsTrimmed(Print(b, createdAt));
    FrontTextEnds(b, createdAt);
    NoEarlyDashes(Unlines(FrontLines(b, createdAt)), rest, b.systemPrompt, e);
  }

  lemma FirstDashesAreNone(f: string, rest: string)
    requires f <= rest && forall i: nat | i < |f| :: !OccursAt(rest, DASHES, i)
    ensures NoDashes(f)
  {
    forall i: nat | i < |f| ensures !DashesAt(rest, i) { DashesOccur(rest, i); }
    assert forall i :: DashesAt(f, i) ==> DashesAt(rest, i);
  }

  lemma NoDashesInside(a: string, v: string, c: string)
    requires NoDashes(a + v + c)
    ensures NoDashes(v)
  {
    assert forall i :: DashesAt(v, i) ==> DashesAt(a + v + c, i + |a|);
  }

  lemma {:induction false} LineHasNoDashes(ls: seq<string>, i: nat)
    requires i < |ls| && NoDashes(Unlines(ls))
    ensures NoDashes(ls[i])
    decreases |ls|
  {
    hide NoDashes;
    assert Unlines(ls) == ls[0] + LF + Unlines(ls[1..]);
    if i == 0 {
      assert Unlines(ls) == [] + ls[0] + (LF + Unlines(ls[1..]));
      NoDashesInside([], ls[0], LF + Unlines(ls[1..]));
    } else {
      assert Unlines(ls) == (ls[0] + LF) + Unlines(ls[1..]) + [];
      NoDashesInside(ls[0] + LF, Unlines(ls[1..]), []);
      LineHasNoDashes(ls[1..], i - 1);
    }
  }

  lemma KeyLineHasNoDashes(key: string, value: string)
    requires NoDashes(KeyLine(key, value))
    ensures NoDashes(value)
  {
    NoDashesInside(key + [':', ' ', '"'], value, ['"']);
    assert KeyLine(key, value) == (key + [':', ' ', '"']) + value + ['"'];
  }

  lemma ListHasNoDashes(items: seq<string>, i: nat)
    requires i < |items| && NoDashes(ListLines(items)[i])
    ensures NoDashes(items[i])
  {
    NoDashesInside([' ', ' ', '-', ' ', '"'], items[i], ['"']);
  }

  lemma {:induction false} EscapingKeepsDashes(s: string)
    requires NoDashes(Escaped(s))
    ensures NoDashes(s)
    decreases |s|
  {
    if s != [] {
      var e := if s[0] == '"' then ['\\', '"'] else [s[0]];
      assert Escaped(s) == e + Escaped(s[1..]) + [];
      NoDashesInside(e, Escaped(s[1..]), []);
      EscapingKeepsDashes(s[1..]);
      DashesStayInFront(s);
      assert forall i :: i > 0 && DashesAt(s, i) ==> DashesAt(s[1..], i - 1);
    }
  }

  lemma DashesStayInFront(s: string)
    ensures DashesAt(s, 0) ==> DashesAt(Escaped(s), 0)
  {
    if DashesAt(s, 0) {
      assert Escaped(s) == ['-'] + Escaped(s[1..]);
      assert Escaped(s[1..]) == ['-'] + Escaped(s[1..][1..]);
      assert Escaped(s[1..][1..]) == ['-'] + Escaped(s[1..][1..][1..]);
    }
  }

  lemma ScalarsHaveNoDashes(b: AgentBlueprint, createdAt: string)
    requires NoDashes(Unlines(FrontLines(b, createdAt)))
    ensures NoDashes(b.roleName) && NoDashes(TaskIdText(b)) && NoDashes(b.reasoning)
  {
    var lines := FrontLines(b, createdAt);
    assert lines[1] == KeyLine(ROLE_NAME, b.roleName) && lines[2] == KeyLine(TASK_ID, TaskIdText(b));
    assert lines[4] == KeyLine(REASONING, Escaped(b.reasoning));
    hide Unlines, FrontLines, KeyLine, Escaped, NoDashes, TaskIdText;
    LineHasNoDashes(lines, 1);
    KeyLineHasNoDashes(ROLE_NAME, b.roleName);
    LineHasNoDashes(lines, 2);
    KeyLineHasNoDashes(TASK_ID, TaskIdText(b));
    LineHasNoDashes(lines, 4);
    KeyLineHasNoDashes(REASONING, Escaped(b.reasoning));
    EscapingKeepsDashes(b.reasoning);
  }

  lemma ItemLineAt(b: AgentBlueprint, createdAt: string, i: nat)
    ensures var lines, n := FrontLines(b, createdAt), |ListLines(b.selectedSkills)|;
            && (i < |b.selectedSkills| ==> 6 + i < |lines| && lines[6 + i] == ListLines(b.selectedSkills)[i])
            && (i < |b.allowedTools| ==> 7 + n + i < |lines| && lines[7 + n + i] == ListLines(b.allowedTools)[i])
  {
    hide KeyLine, ItemLine, Escaped;
  }

  lemma ItemsHaveNoDashes(b: AgentBlueprint, createdAt: string, i: nat)
    requires NoDashes(Unlines(FrontLines(b, createdAt)))
    ensures i < |b.selectedSkills| ==> NoDashes(b.selectedSkills[i])
    ensures i < |b.allowedTools| ==> NoDashes(b.allowedTools[i])
  {
    assert i < |b.selectedSkills| ==> |ListLines(b.selectedSkills)| == |b.selectedSkills|;
    assert i < |b.allowedTools| ==> |ListLines(b.allowedTools)| == |b.allowedTools|;
    hide Unlines, FrontLines, NoDashes, ListLines;
    ItemLineAt(b, createdAt, i);
    if i < |b.selectedSkills| {
      LineHasNoDashes(FrontLines(b, createdAt), 6 + i);
      ListHasNoDashes(b.selectedSkills, i);
    }
    if i < |b.allowedTools| {
      LineHasNoDashes(FrontLines(b, createdAt), 7 + |ListLines(b.selectedSkills)| + i);
      ListHasNoDashes(b.allowedTools, i);
    }
  }

  /** A blueprint that comes back can be printed. */
  lemma ReturningIsPrintable(b: AgentBlueprint, createdAt: string)
    requires ParseMarkdown(Print(b, createdAt)) == Some(b) && Inline(createdAt)
    ensures Printable(b, createdAt)
  {
    FrontmatterEndsWhereItShould(b, createdAt);
    ParsedIsOneLine(Print(b, createdAt));
    hide ParseMarkdown, Print, Unlines, FrontLines, NoDashes, NoNewline, TaskIdText, Trimmed;
    ScalarsHaveNoDashes(b, createdAt);
    forall i | 0 <= i < |b.selectedSkills| ensures Inline(b.selectedSkills[i]) { ItemsHaveNoDashes(b, createdAt, i); }
    forall i | 0 <= i < |b.allowedTools| ensures Inline(b.allowedTools[i]) { ItemsHaveNoDashes(b, createdAt, i); }
  }

  /** Exactly which blueprints come back as they were, the clock's text being one line without
      three dashes in a row. */
  lemma RoundTripExactlyWhen(b: AgentBlueprint, createdAt: string)
    requires Inline(createdAt)
    ensures ParseMarkdown(Print(b, createdAt)) == Some(b) <==> Printable(b, createdAt) && Plain(b)
  {
    hide *;
    if ParseMarkdown(Print(b, createdAt)) == Some(b) { ReturningIsPrintable(b, createdAt); }
    if Printable(b, createdAt) { ParseOfPrint(b, createdAt); }
    ReadBackExactlyWhen(b);
  }
}
