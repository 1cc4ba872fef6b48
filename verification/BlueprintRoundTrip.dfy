/** Reading back what was printed (src/agents/prompt_builder.rs). */
module BlueprintRoundTrip {
  import opened Text
  import opened Lines
  import opened Blueprint

  // ----- What may be printed

  predicate DashesAt(s: string, i: int) {
    0 <= i && i + 3 <= |s| && s[i] == '-' && s[i + 1] == '-' && s[i + 2] == '-'
  }

  /** No three dashes in a row. */
  ghost predicate NoDashes(s: string) { forall i :: !DashesAt(s, i) }

  lemma DashesOccur(s: string, i: nat)
    ensures OccursAt(s, DASHES, i) <==> DashesAt(s, i)
  {
    assert DASHES[0] == '-' && DASHES[1] == '-' && DASHES[2] == '-';
    if OccursAt(s, DASHES, i) {
      assert s[i + 0] == DASHES[0] && s[i + 1] == DASHES[1] && s[i + 2] == DASHES[2];
    }
  }

  /** A value that stays on its line and does not look like the end of the frontmatter. */
  ghost predicate Inline(s: string) { NoNewline(s) && NoDashes(s) }

  ghost predicate InlineItems(items: seq<string>) { forall i | 0 <= i < |items| :: Inline(items[i]) }

  /** A blueprint whose fields can be told apart again once printed. */
  ghost predicate Printable(b: AgentBlueprint, createdAt: string) {
    && Inline(b.roleName) && Inline(TaskIdText(b)) && Inline(createdAt) && Inline(b.reasoning)
    && InlineItems(b.selectedSkills) && InlineItems(b.allowedTools)
  }

  predicate NoQuotes(s: string) { forall k | 0 <= k < |s| :: s[k] != '"' }

  // ----- One line

  /** A key as the printer writes it: lower-case letters and underscores. */
  ghost predicate IsKey(key: string) { key != [] && forall k | 0 <= k < |key| :: 'a' <= key[k] <= 'z' || key[k] == '_' }

  lemma KeysAreKeys()
    ensures IsKey(ROLE_NAME) && IsKey(TASK_ID) && IsKey(CREATED_AT) && IsKey(REASONING)
    ensures IsKey(SELECTED_SKILLS) && IsKey(ALLOWED_TOOLS)
  {}

  lemma FieldsOfKeys()
    ensures FieldOf(ROLE_NAME) == RoleField && FieldOf(TASK_ID) == TaskField && FieldOf(CREATED_AT) == OtherField
    ensures FieldOf(REASONING) == ReasoningField && FieldOf(SELECTED_SKILLS) == SkillsField
    ensures FieldOf(ALLOWED_TOOLS) == ToolsField
  {
    assert |ROLE_NAME| == 9 && |TASK_ID| == 7 && |CREATED_AT| == 10 && |REASONING| == 9
           && |SELECTED_SKILLS| == 15 && |ALLOWED_TOOLS| == 13;
    assert ROLE_NAME[1] == 'o' && REASONING[1] == 'e';
  }

  lemma KeyIsItsOwnLower(key: string)
    requires IsKey(key)
    ensures Lower(Trim(key)) == key && key[0] != '-' && key[0] != '*' && !IsWhitespace(key[0])
  {
    TrimmedStays(key);
    assert Lower(key) == key;
  }

  lemma UnquotedQuoted(value: string, inner: string)
    requires inner == Unquoted(value)
    ensures Unquoted(['"'] + value + ['"']) == inner
  {
    var pre, post := TrimWhileParts(IsQuote, value);
    assert ['"'] + value + ['"'] == (['"'] + pre) + inner + (post + ['"']);
    TrimWhileUnique(IsQuote, ['"'] + value + ['"'], ['"'] + pre, inner, post + ['"']);
  }

  /** A `key: value` line is read as its field, ending any list. */
  lemma ReadsPair(st: Front, line: string, key: string, after: string)
    requires IsKey(key) && line == key + [':'] + after && (after == [] || !IsWhitespace(after[|after| - 1]))
    ensures ReadLine(st, line) == SetField(st.(list := NoList), FieldOf(key), Unquoted(Trim(after)))
  {
    hide Trim, Unquoted, FieldOf, Lower, FindChar;
    PairParts(line, key, after);
    assert line[..|key|] == key && line[|key| + 1..] == after;
    assert ReadPair(st.(list := NoList), line)
           == SetField(st.(list := NoList), FieldOf(key), Unquoted(Trim(after)));
    assert st.list == NoList ==> st == st.(list := NoList);
  }

  lemma PairParts(line: string, key: string, after: string)
    requires IsKey(key) && line == key + [':'] + after && (after == [] || !IsWhitespace(after[|after| - 1]))
    ensures Trim(line) == line && line != [] && line[0] != '-' && line[0] != '*'
    ensures FindChar(line, ':', 0) == Some(|key|) && Lower(Trim(key)) == key
  {
    hide Trim, Lower;
    KeyIsItsOwnLower(key);
    TrimmedStays(line);
    assert line[0] == key[0];
    assert forall k | 0 <= k < |key| :: line[k] == key[k] && key[k] != ':';
    assert line[|key|] == ':';
  }

  lemma ReadsKeyLine(st: Front, key: string, value: string)
    requires IsKey(key)
    ensures ReadLine(st, KeyLine(key, value)) == SetField(st.(list := NoList), FieldOf(key), Unquoted(value))
  {
    var quoted := ['"'] + value + ['"'];
    var after := [' '] + quoted;
    assert KeyLine(key, value) == key + [':'] + after;
    assert after == [' '] + quoted + [];
    TrimWhileUnique(IsWhitespace, after, [' '], quoted, []);
    UnquotedQuoted(value, Unquoted(value));
    ReadsPair(st, KeyLine(key, value), key, after);
  }

  lemma ReadsHeader(st: Front, key: string)
    requires IsKey(key)
    ensures ReadLine(st, key + [':']) == SetField(st.(list := NoList), FieldOf(key), [])
  {
    assert key + [':'] == key + [':'] + [];
    ReadsPair(st, key + [':'], key, []);
    TrimmedStays([]);
    TrimWhileUnique(IsQuote, [], [], [], []);
  }

  lemma BulletLineParts(item: string)
    ensures Trim(ItemLine(item)) == ['-', ' ', '"'] + item + ['"']
    ensures Trim(TrimStartWhile(IsBulletOrBlank, Trim(ItemLine(item)))) == ['"'] + item + ['"']
  {
    var l, quoted := ['-', ' ', '"'] + item + ['"'], ['"'] + item + ['"'];
    assert ItemLine(item) == [' ', ' '] + l + [];
    TrimIsTrimWhile(ItemLine(item));
    hide Trim, TrimWhile, ItemLine;
    TrimWhileUnique(IsWhitespace, [' ', ' '] + l + [], [' ', ' '], l, []);
    assert RunEndsAt(IsBulletOrBlank, l, 0, 2);
    assert l[2..] == quoted;
    TrimmedStays(quoted);
  }

  lemma ReadsItem(st: Front, item: string)
    requires st.list != NoList
    ensures ReadLine(st, ItemLine(item)) == Push(st, Unquoted(item))
  {
    BulletLineParts(item);
    UnquotedQuoted(item, Unquoted(item));
    hide Trim, TrimStartWhile, Unquoted;
    assert (['-', ' ', '"'] + item + ['"'])[0] == '-';
  }

  lemma ReadsBlank(st: Front)
    ensures ReadLine(st, []) == st
  {
    TrimmedStays([]);
  }

  // ----- All lines

  lemma {:induction false} ReadAppend(st: Front, a: seq<string>, b: seq<string>)
    ensures ReadLines(st, a + b) == ReadLines(ReadLines(st, a), b)
    decreases |a|
  {
    hide ReadLine;
    if a == [] {
      assert a + b == b;
    } else {
      assert (a + b)[1..] == a[1..] + b;
      ReadAppend(ReadLine(st, a[0]), a[1..], b);
    }
  }

  lemma ReadOne(st: Front, l: string)
    ensures ReadLines(st, [l]) == ReadLine(st, l)
  {
    hide ReadLine;
    assert [l][1..] == [];
    assert ReadLines(ReadLine(st, l), []) == ReadLine(st, l);
  }

  /** The state after a list of items has been read. */
  function WithItems(st: Front, items: seq<string>): Front {
    match st.list
    case Skills => st.(skills := st.skills + items)
    case Tools => st.(tools := st.tools + items)
    case NoList => st
  }

  /** What is left of printed items: no quotes around them, and no empty ones. */
  function ItemsBack(items: seq<string>): seq<string> {
    if items == [] then []
    else (if Unquoted(items[0]) == [] then [] else [Unquoted(items[0])]) + ItemsBack(items[1..])
  }

  lemma {:induction false} ReadsItems(st: Front, items: seq<string>)
    requires st.list != NoList
    ensures ReadLines(st, ItemLines(items)) == WithItems(st, ItemsBack(items))
    decreases |items|
  {
    if items == [] {
      assert WithItems(st, ItemsBack(items)) == st;
    } else {
      PushThenRest(st, items);
      assert Push(st, Unquoted(items[0])).list == st.list;
      assert ItemLines(items)[1..] == ItemLines(items[1..]);
      hide ReadLine, ItemLine, ItemLines, WithItems, Push, ItemsBack, Unquoted;
      ReadsItem(st, items[0]);
      ReadsItems(Push(st, Unquoted(items[0])), items[1..]);
    }
  }

  lemma PushThenRest(st: Front, items: seq<string>)
    requires st.list != NoList && items != []
    ensures WithItems(Push(st, Unquoted(items[0])), ItemsBack(items[1..])) == WithItems(st, ItemsBack(items))
  {
    assert ItemsBack(items) == (if Unquoted(items[0]) == [] then [] else [Unquoted(items[0])]) + ItemsBack(items[1..]);
    hide Unquoted, ItemsBack, WithItems, Push;
    PushThen(st, Unquoted(items[0]), ItemsBack(items[1..]));
  }

  lemma PushThen(st: Front, item: string, rest: seq<string>)
    requires st.list != NoList
    ensures WithItems(Push(st, item), rest) == WithItems(st, (if item == [] then [] else [item]) + rest)
  {
    assert [] + rest == rest;
    assert st.skills + ([item] + rest) == st.skills + [item] + rest;
    assert st.tools + ([item] + rest) == st.tools + [item] + rest;
  }

  /** The lines of a printed list: none stands for a blank line. */
  function ListLines(items: seq<string>): seq<string> { if items == [] then [[]] else ItemLines(items) }

  lemma ReadsListLines(st: Front, items: seq<string>)
    requires st.list != NoList
    ensures ReadLines(st, ListLines(items)) == WithItems(st, ItemsBack(items))
  {
    hide ReadLine, Unquoted;
    if items == [] {
      ReadOne(st, []);
      ReadsBlank(st);
    } else {
      ReadsItems(st, items);
    }
  }

  /** The frontmatter's lines, between the dashes. */
  function FrontLines(b: AgentBlueprint, createdAt: string): seq<string> {
    [[], KeyLine(ROLE_NAME, b.roleName), KeyLine(TASK_ID, TaskIdText(b)), KeyLine(CREATED_AT, createdAt),
     KeyLine(REASONING, Escaped(b.reasoning)), SELECTED_SKILLS + [':']]
    + ListLines(b.selectedSkills) + [ALLOWED_TOOLS + [':']] + ListLines(b.allowedTools)
  }

  lemma ReadTwo(st: Front, a: string, b: string)
    ensures ReadLines(st, [a, b]) == ReadLine(ReadLine(st, a), b)
  {
    hide ReadLine;
    ReadOne(st, a);
    ReadOne(ReadLine(st, a), b);
    ReadAppend(st, [a], [b]);
    assert [a] + [b] == [a, b];
  }

  /** The task id read from the text between the quotes. */
  function ReadTaskId(text: string): Option<string> { if Unquoted(text) == [] then None else Some(Unquoted(text)) }

  /** What the six leading lines say. */
  lemma ReadsScalars(b: AgentBlueprint, createdAt: string)
    ensures ReadLines(START, FrontLines(b, createdAt)[..6]) ==
            Front(Unquoted(b.roleName), ReadTaskId(TaskIdText(b)), Unquoted(Escaped(b.reasoning)), [], [], Skills)
  {
    KeysAreKeys();
    FieldsOfKeys();
    hide ReadLine, KeyLine, FieldOf, Escaped, Unquoted, Trimmed, IsKey;
    var l0, l1 := [], KeyLine(ROLE_NAME, b.roleName);
    var l2, l3 := KeyLine(TASK_ID, TaskIdText(b)), KeyLine(CREATED_AT, createdAt);
    var l4, l5 := KeyLine(REASONING, Escaped(b.reasoning)), SELECTED_SKILLS + [':'];
    assert FrontLines(b, createdAt)[..6] == ([l0, l1] + [l2, l3]) + [l4, l5];
    ReadAppend(START, [l0, l1] + [l2, l3], [l4, l5]);
    ReadAppend(START, [l0, l1], [l2, l3]);
    ReadTwo(START, l0, l1);
    ReadsBlank(START);
    ReadsKeyLine(START, ROLE_NAME, b.roleName);
    var s1 := START.(roleName := Unquoted(b.roleName));
    ReadTwo(s1, l2, l3);
    ReadsKeyLine(s1, TASK_ID, TaskIdText(b));
    var s2 := s1.(taskId := ReadTaskId(TaskIdText(b)));
    ReadsKeyLine(s2, CREATED_AT, createdAt);
    ReadTwo(s2, l4, l5);
    ReadsKeyLine(s2, REASONING, Escaped(b.reasoning));
    var s3 := s2.(reasoning := Unquoted(Escaped(b.reasoning)));
    ReadsHeader(s3, SELECTED_SKILLS);
  }

  lemma PlainIsUnquoted(s: string)
    requires Trimmed(IsQuote, s)
    ensures Unquoted(s) == s
  {
    TrimWhileUnique(IsQuote, s, [], s, []);
  }

  lemma ReadsFrontLines(b: AgentBlueprint, createdAt: string)
    ensures ReadLines(START, FrontLines(b, createdAt)) ==
            Front(Unquoted(b.roleName), ReadTaskId(TaskIdText(b)), Unquoted(Escaped(b.reasoning)),
                  ItemsBack(b.selectedSkills), ItemsBack(b.allowedTools), Tools)
  {
    hide *;
    ReadsScalars(b, createdAt);
    FrontLinesParts(b, createdAt);
    var lines, tools := FrontLines(b, createdAt), ALLOWED_TOOLS + [':'];
    var st := Front(Unquoted(b.roleName), ReadTaskId(TaskIdText(b)), Unquoted(Escaped(b.reasoning)), [], [], Skills);
    ReadAppend(START, (lines[..6] + ListLines(b.selectedSkills)) + [tools], ListLines(b.allowedTools));
    ReadAppend(START, lines[..6] + ListLines(b.selectedSkills), [tools]);
    ReadAppend(START, lines[..6], ListLines(b.selectedSkills));
    ReadsLists(st, b.selectedSkills, b.allowedTools);
  }

  lemma FrontLinesParts(b: AgentBlueprint, createdAt: string)
    ensures var lines := FrontLines(b, createdAt);
            |lines| >= 6
            && lines ==
               ((lines[..6] + ListLines(b.selectedSkills)) + [ALLOWED_TOOLS + [':']]) + ListLines(b.allowedTools)
  {
    hide ListLines, KeyLine, Escaped, TaskIdText;
  }

  lemma ReadsLists(st: Front, skills: seq<string>, tools: seq<string>)
    requires st.skills == [] && st.tools == [] && st.list == Skills
    ensures ReadLines(ReadLines(ReadLines(st, ListLines(skills)), [ALLOWED_TOOLS + [':']]), ListLines(tools))
            == st.(skills := ItemsBack(skills), tools := ItemsBack(tools), list := Tools)
  {
    KeysAreKeys();
    FieldsOfKeys();
    hide ReadLine, ReadLines, ListLines, FieldOf, IsKey, ItemsBack;
    assert [] + ItemsBack(skills) == ItemsBack(skills) && [] + ItemsBack(tools) == ItemsBack(tools);
    ReadsListLines(st, skills);
    var s1 := st.(skills := ItemsBack(skills));
    ReadOne(s1, ALLOWED_TOOLS + [':']);
    ReadsHeader(s1, ALLOWED_TOOLS);
    ReadsListLines(s1.(list := Tools), tools);
  }

  // ----- The text and its lines

  /** Every line with a newline behind it. */
  function Unlines(ls: seq<string>): string { if ls == [] then [] else ls[0] + LF + Unlines(ls[1..]) }

  lemma {:induction false} UnlinesAppend(a: seq<string>, b: seq<string>)
    ensures Unlines(a + b) == Unlines(a) + Unlines(b)
    decreases |a|
  {
    if a == [] {
      assert a + b == b;
    } else {
      assert (a + b)[1..] == a[1..] + b;
      UnlinesAppend(a[1..], b);
    }
  }

  lemma UnlinesOne(l: string)
    ensures Unlines([l]) == l + LF
  {
    assert [l][1..] == [];
    assert Unlines([]) == [];
  }

  lemma {:induction false} JoinIsUnlines(ls: seq<string>)
    requires ls != []
    ensures Join(ls) + LF == Unlines(ls)
    decreases |ls|
  {
    if |ls| == 1 {
      assert ls == [ls[0]];
      UnlinesOne(ls[0]);
    } else {
      JoinIsUnlines(ls[1..]);
    }
  }

  lemma ListIsUnlines(items: seq<string>)
    ensures Join(ItemLines(items)) + LF == Unlines(ListLines(items))
  {
    if items == [] {
      UnlinesOne([]);
    } else {
      JoinIsUnlines(ItemLines(items));
    }
  }

  lemma AppendLine(pre: string, a: seq<string>, l: string)
    ensures pre + Unlines(a) + l + LF == pre + Unlines(a + [l])
  {
    UnlinesAppend(a, [l]);
    UnlinesOne(l);
    hide Unlines;
  }

  lemma AppendList(pre: string, a: seq<string>, items: seq<string>)
    ensures pre + Unlines(a) + Join(ItemLines(items)) + LF == pre + Unlines(a + ListLines(items))
  {
    UnlinesAppend(a, ListLines(items));
    ListIsUnlines(items);
    hide Unlines, Join, ItemLines, ListLines;
  }

  lemma PrintIsUnlines(b: AgentBlueprint, createdAt: string)
    ensures Print(b, createdAt) == DASHES + Unlines(FrontLines(b, createdAt)) + DASHES + LF + LF + b.systemPrompt
  {
    hide Unlines, Join, ItemLines, ListLines, KeyLine, Escaped, TaskIdText;
    UnlinesOne([]);
    var a0 := [[]];
    assert DASHES + LF == DASHES + Unlines(a0);
    var l1, l2 := KeyLine(ROLE_NAME, b.roleName), KeyLine(TASK_ID, TaskIdText(b));
    var l3, l4 := KeyLine(CREATED_AT, createdAt), KeyLine(REASONING, Escaped(b.reasoning));
    var l5, l6 := SELECTED_SKILLS + [':'], ALLOWED_TOOLS + [':'];
    AppendLine(DASHES, a0, l1);
    AppendLine(DASHES, a0 + [l1], l2);
    AppendLine(DASHES, a0 + [l1] + [l2], l3);
    AppendLine(DASHES, a0 + [l1] + [l2] + [l3], l4);
    AppendLine(DASHES, a0 + [l1] + [l2] + [l3] + [l4], l5);
    var a5 := a0 + [l1] + [l2] + [l3] + [l4] + [l5];
    AppendList(DASHES, a5, b.selectedSkills);
    AppendLine(DASHES, a5 + ListLines(b.selectedSkills), l6);
    AppendList(DASHES, a5 + ListLines(b.selectedSkills) + [l6], b.allowedTools);
    assert a5 + ListLines(b.selectedSkills) + [l6] + ListLines(b.allowedTools) == FrontLines(b, createdAt);
    HeaderAndNewline(DASHES + Unlines(a0 + [l1] + [l2] + [l3] + [l4]), SELECTED_SKILLS);
    HeaderAndNewline(DASHES + Unlines(a5 + ListLines(b.selectedSkills)), ALLOWED_TOOLS);
  }

  lemma HeaderAndNewline(pre: string, key: string)
    ensures pre + key + [':'] + LF == pre + (key + [':']) + LF
  {}

  /** A line that survives being written and split again, without dashes in a row. */
  ghost predicate Whole(l: string) { Inline(l) && !EndsWith(l, '\r') }

  lemma {:induction false} LinesOfUnlines(ls: seq<string>)
    requires forall i | 0 <= i < |ls| :: Whole(ls[i])
    ensures LinesOf(Unlines(ls)) == ls
    decreases |ls|
  {
    if ls != [] {
      var c, rest := Chunk(ls[0], LF), Unlines(ls[1..]);
      LinesOfUnlines(ls[1..]);
      assert Unlines(ls) == ls[0] + LF + rest;
      assert Whole(ls[0]);
      BodiesOfCons(c, Chunks(rest));
      assert IsChunk(c, rest == []);
      hide Unlines, Whole, IsChunk, Chunks, Bodies;
      ConsPiece(c, rest);
    }
  }

  lemma BodiesOfCons(c: Chunk, cs: seq<Chunk>)
    ensures Bodies([c] + cs) == [c.body] + Bodies(cs)
  {}

  lemma NoDashesAround(a: string, c: char, b: string)
    requires NoDashes(a) && NoDashes(b) && c != '-'
    ensures NoDashes(a + [c] + b)
  {
    var s := a + [c] + b;
    assert s[|a|] == c;
    assert forall i :: DashesAt(s, i) && i + 3 <= |a| ==> DashesAt(a, i);
    assert forall i :: DashesAt(s, i) && i > |a| ==> DashesAt(b, i - |a| - 1);
  }

  lemma NoDashesShort(s: string)
    requires |s| < 3
    ensures NoDashes(s)
  {}

  lemma {:induction false} UnlinesHasNoDashes(ls: seq<string>)
    requires forall i | 0 <= i < |ls| :: Whole(ls[i])
    ensures NoDashes(Unlines(ls))
    decreases |ls|
  {
    if ls != [] {
      assert Whole(ls[0]);
      UnlinesHasNoDashes(ls[1..]);
      hide NoDashes;
      NoDashesAround(ls[0], '\n', Unlines(ls[1..]));
    }
  }

  lemma {:induction false} UnlinesEndsInNewline(ls: seq<string>)
    requires ls != []
    ensures EndsWith(Unlines(ls), '\n')
    decreases |ls|
  {
    if |ls| == 1 {
      UnlinesOne(ls[0]);
      assert ls == [ls[0]];
    } else {
      UnlinesEndsInNewline(ls[1..]);
    }
  }

  lemma {:induction false} EscapedIsInline(s: string)
    requires Inline(s)
    ensures Inline(Escaped(s))
    decreases |s|
  {
    if s != [] {
      var rest := s[1..];
      assert Inline(rest) by {
        assert forall i :: DashesAt(rest, i) ==> DashesAt(s, i + 1);
      }
      EscapedIsInline(rest);
      EscapedStep(s);
    }
  }

  lemma EscapedStep(s: string)
    requires s != [] && Inline(s) && Inline(Escaped(s[1..]))
    ensures Inline(Escaped(s))
  {
    var e := Escaped(s[1..]);
    NoDashesShort([]);
    if s[0] == '"' {
      NoDashesAround([], '"', e);
      NoDashesAround([], '\\', [] + ['"'] + e);
      assert Escaped(s) == [] + ['\\'] + ([] + ['"'] + e);
    } else if s[0] != '-' {
      NoDashesAround([], s[0], e);
      assert Escaped(s) == [] + [s[0]] + e;
    } else {
      assert Escaped(s) == ['-'] + e;
      DashesBeforeEscape(s);
    }
  }

  lemma EscapedStartsWithDash(s: string)
    ensures EscapedDash(s) ==> s != [] && s[0] == '-' && Escaped(s) == ['-'] + Escaped(s[1..])
  {}

  predicate EscapedDash(s: string) { Escaped(s) != [] && Escaped(s)[0] == '-' }

  /** A dash is never part of an escape. */
  lemma DashesBeforeEscape(s: string)
    requires s != [] && s[0] == '-' && Inline(s) && NoDashes(Escaped(s[1..]))
    ensures NoDashes(Escaped(s))
  {
    var e, t := Escaped(s[1..]), Escaped(s);
    assert t == ['-'] + e;
    EscapedStartsWithDash(s[1..]);
    if |s| > 1 { EscapedStartsWithDash(s[1..][1..]); }
    assert DashesAt(t, 0) ==> DashesAt(s, 0);
    assert forall i :: i > 0 && DashesAt(t, i) ==> DashesAt(e, i - 1);
  }

  lemma QuotedLineIsWhole(pre: string, value: string)
    requires Inline(pre) && Inline(value)
    ensures Whole(pre + ['"'] + value + ['"'])
  {
    NoDashesShort([]);
    hide NoDashes;
    NoDashesAround(pre, '"', value);
    NoDashesAround(pre + ['"'] + value, '"', []);
    assert pre + ['"'] + value + ['"'] == pre + ['"'] + value + ['"'] + [];
  }

  lemma KeyLineIsWhole(key: string, value: string)
    requires IsKey(key) && Inline(value)
    ensures Whole(KeyLine(key, value))
  {
    var pre := key + [':', ' '];
    assert Inline(pre);
    QuotedLineIsWhole(pre, value);
    assert KeyLine(key, value) == pre + ['"'] + value + ['"'];
  }

  lemma HeaderIsWhole(key: string)
    requires IsKey(key)
    ensures Whole(key + [':'])
  {}

  lemma ListLinesAreWhole(items: seq<string>)
    requires InlineItems(items)
    ensures forall i | 0 <= i < |ListLines(items)| :: Whole(ListLines(items)[i])
  {
    NoDashesShort([]);
    forall i | 0 <= i < |items|
      ensures Whole(ItemLine(items[i]))
    {
      var pre := [' ', ' ', '-', ' '];
      assert Inline(pre);
      QuotedLineIsWhole(pre, items[i]);
      assert ItemLine(items[i]) == pre + ['"'] + items[i] + ['"'];
    }
  }

  lemma FrontLinesAreWhole(b: AgentBlueprint, createdAt: string)
    requires Printable(b, createdAt)
    ensures forall i | 0 <= i < |FrontLines(b, createdAt)| :: Whole(FrontLines(b, createdAt)[i])
  {
    KeysAreKeys();
    NoDashesShort([]);
    assert Whole([]);
    hide NoDashes, IsKey, KeyLine;
    KeyLineIsWhole(ROLE_NAME, b.roleName);
    KeyLineIsWhole(TASK_ID, TaskIdText(b));
    KeyLineIsWhole(CREATED_AT, createdAt);
    EscapedIsInline(b.reasoning);
    KeyLineIsWhole(REASONING, Escaped(b.reasoning));
    HeaderIsWhole(SELECTED_SKILLS);
    HeaderIsWhole(ALLOWED_TOOLS);
    ListLinesAreWhole(b.selectedSkills);
    ListLinesAreWhole(b.allowedTools);
    hide Whole, ListLines, Escaped;
  }

  // ----- Finding the frontmatter again

  lemma FirstDashesEndIt(f: string, tail: string)
    requires EndsWith(f, '\n') && NoDashes(f)
    ensures Find(f + DASHES + tail, DASHES, 0) == Some(|f|)
  {
    var s := f + DASHES + tail;
    DashesOccur(s, |f|);
    forall i: nat | i < |f|
      ensures !OccursAt(s, DASHES, i)
    {
      DashesOccur(s, i);
      assert s[|f| - 1] == '\n';
      assert DashesAt(s, i) && i + 3 <= |f| ==> DashesAt(f, i);
    }
  }

  /** What is behind the closing dashes once the whole text is trimmed. */
  function Tail(prompt: string): string { if Trim(prompt) == [] then [] else LF + LF + TrimEnd(prompt) }

  /** A prompt in its trimmed parts. */
  lemma PromptParts(prompt: string) returns (pre: string, post: string)
    ensures prompt == pre + Trim(prompt) + post && All(IsWhitespace, pre) && All(IsWhitespace, post)
    ensures Trimmed(IsWhitespace, Trim(prompt))
    ensures Trim(prompt) != [] ==> TrimEnd(prompt) == pre + Trim(prompt)
  {
    pre, post := TrimWhileParts(IsWhitespace, prompt);
    var core := Trim(prompt);
    if core != [] {
      var e := |pre + core|;
      assert prompt[e - 1] == core[|core| - 1];
      assert forall k | e <= k < |prompt| :: prompt[k] == post[k - e];
      assert SkipBack(IsWhitespace, prompt, |prompt|) == e;
      assert prompt[..e] == pre + core;
    }
  }

  lemma TrimmedTail(prompt: string)
    ensures Trim(Tail(prompt)) == Trim(prompt)
  {
    var pre, post := PromptParts(prompt);
    var core := Trim(prompt);
    if core == [] {
      TrimmedStays([]);
    } else {
      assert Tail(prompt) == (LF + LF + pre) + core + [];
      TrimWhileUnique(IsWhitespace, Tail(prompt), LF + LF + pre, core, []);
    }
  }

  lemma TrimmedText(f: string, prompt: string)
    ensures Trim(DASHES + f + DASHES + LF + LF + prompt) == DASHES + (f + DASHES + Tail(prompt))
  {
    var core, post := EndOfText(f, prompt);
    hide TrimWhile, Tail, Trim;
    TrimWhileUnique(IsWhitespace, core + post, [], core, post);
    assert TrimWhile(IsWhitespace, core + post) == core;
    TrimIsTrimWhile(core + post);
  }

  lemma TrimIsTrimWhile(s: string)
    ensures Trim(s) == TrimWhile(IsWhitespace, s)
  {}

  lemma EndOfText(f: string, prompt: string) returns (core: string, end: string)
    ensures core == DASHES + (f + DASHES + Tail(prompt))
    ensures DASHES + f + DASHES + LF + LF + prompt == core + end == [] + core + end
    ensures Trimmed(IsWhitespace, core) && All(IsWhitespace, end)
  {
    var pre, post := PromptParts(prompt);
    var shown, tail := Trim(prompt), Tail(prompt);
    core := DASHES + (f + DASHES + tail);
    if shown == [] {
      assert tail == [] && prompt == pre + post;
      hide Trim, TrimEnd, Tail;
      end := LF + LF + prompt;
      BlankEnd(f, prompt);
    } else {
      assert tail == LF + LF + TrimEnd(prompt) && prompt == TrimEnd(prompt) + post;
      hide Trim, TrimEnd, Tail;
      end := post;
      assert tail[|tail| - 1] == shown[|shown| - 1];
      VisibleEnd(f, tail, TrimEnd(prompt), post);
    }
    EndsVisibly(f, tail);
  }

  lemma BlankEnd(f: string, prompt: string)
    ensures DASHES + f + DASHES + LF + LF + prompt == DASHES + (f + DASHES + []) + (LF + LF + prompt)
  {}

  lemma VisibleEnd(f: string, tail: string, t: string, post: string)
    requires tail == LF + LF + t
    ensures DASHES + f + DASHES + LF + LF + (t + post) == DASHES + (f + DASHES + tail) + post
  {}

  lemma EndsVisibly(f: string, tail: string)
    ensures var core := DASHES + (f + DASHES + tail);
            core[0] == '-' && core[|core| - 1] == (if tail == [] then '-' else tail[|tail| - 1])
  {}

  // ----- The round trip

  /** What a printed blueprint reads back as. */
  function ReadBack(b: AgentBlueprint): AgentBlueprint {
    AgentBlueprint(Unquoted(b.roleName), Unquoted(Escaped(b.reasoning)),
                   ItemsBack(b.selectedSkills), ItemsBack(b.allowedTools),
                   Trim(b.systemPrompt), ReadTaskId(TaskIdText(b)))
  }

  /** Every printable blueprint reads back: quotes around values and empty items are gone, the
      quotes in the reasoning are escaped, the prompt is trimmed. */
  lemma ParseOfPrint(b: AgentBlueprint, createdAt: string)
    requires Printable(b, createdAt)
    ensures ParseMarkdown(Print(b, createdAt)) == Some(ReadBack(b))
  {
    var f, tail := Unlines(FrontLines(b, createdAt)), Tail(b.systemPrompt);
    ReadsFrontLines(b, createdAt);
    FrontmatterText(b, createdAt);
    TrimmedTail(b.systemPrompt);
    PrintIsUnlines(b, createdAt);
    TrimmedText(f, b.systemPrompt);
    FirstDashesEndIt(f, tail);
    hide Print, Unlines, FrontLines, Tail, ItemsBack, Unquoted, Escaped, ReadTaskId, Trim, ReadLines, LinesOf;
    hide Find, ParseMarkdown;
    ParseCut(Print(b, createdAt), f, tail);
  }

  lemma FrontmatterText(b: AgentBlueprint, createdAt: string)
    requires Printable(b, createdAt)
    ensures var f := Unlines(FrontLines(b, createdAt));
            LinesOf(f) == FrontLines(b, createdAt) && EndsWith(f, '\n') && NoDashes(f)
  {
    FrontLinesAreWhole(b, createdAt);
    LinesOfUnlines(FrontLines(b, createdAt));
    UnlinesHasNoDashes(FrontLines(b, createdAt));
    UnlinesEndsInNewline(FrontLines(b, createdAt));
  }

  lemma ParseCut(raw: string, f: string, tail: string)
    requires Trim(raw) == DASHES + (f + DASHES + tail)
    requires Find(f + DASHES + tail, DASHES, 0) == Some(|f|)
    ensures var st := ReadLines(START, LinesOf(f));
            ParseMarkdown(raw) ==
              Some(AgentBlueprint(st.roleName, st.reasoning, st.skills, st.tools, Trim(tail), st.taskId))
  {
    hide ReadLines, LinesOf, Trim, Find;
    var rest := f + DASHES + tail;
    assert OccursAt(DASHES + rest, DASHES, 0);
    assert (DASHES + rest)[3..] == rest;
    assert rest[..|f|] == f && rest[|f| + 3..] == tail;
  }

  lemma {:induction false} EscapedAt(s: string, f: nat)
    requires f < |s| && s[f] == '"' && forall k | 0 <= k < f :: s[k] != '"'
    ensures f < |Escaped(s)| && Escaped(s)[f] == '\\' && forall k | 0 <= k < f :: Escaped(s)[k] == s[k]
  {
    if f > 0 {
      EscapedAt(s[1..], f - 1);
    }
  }

  lemma {:induction false} EscapedStays(s: string)
    requires NoQuotes(s)
    ensures Escaped(s) == s
    decreases |s|
  {
    if s != [] { EscapedStays(s[1..]); }
  }

  lemma UnquotedKeeps(e: string, f: nat)
    requires f < |e| && !IsQuote(e[0]) && !IsQuote(e[f])
    ensures f < |Unquoted(e)| && Unquoted(e)[f] == e[f]
  {
    var pre, post := TrimWhileParts(IsQuote, e);
    StaysInside(IsQuote, pre, Unquoted(e), post, 0);
    StaysInside(IsQuote, pre, Unquoted(e), post, f);
  }

  /** A character that trimming does not remove lies in what it leaves. */
  lemma StaysInside(p: char -> bool, pre: string, core: string, post: string, k: nat)
    requires All(p, pre) && All(p, post)
    requires k < |pre + core + post| && !p((pre + core + post)[k])
    ensures |pre| <= k < |pre| + |core| && core[k - |pre|] == (pre + core + post)[k]
  {}

  /** Reading the printed reasoning gives it back exactly when it holds no quote. */
  lemma ReasoningSurvivesExactlyWhen(r: string)
    ensures Unquoted(Escaped(r)) == r <==> NoQuotes(r)
  {
    if NoQuotes(r) {
      EscapedStays(r);
      PlainIsUnquoted(r);
    } else {
      var first := FindChar(r, '"', 0);
      var f := first.value;
      EscapedAt(r, f);
      var e := Escaped(r);
      assert e[0] != '"';
      hide Escaped;
      UnquotedKeeps(e, f);
    }
  }
}
