/** The task-line grammar: head, checkbox, task id, description, and the rewriting of a
    single line when its box is ticked (src/plan_parse.rs). */
module TaskLines {
  import opened Text
  import opened TaskId
  import opened TrailingGroups

  datatype Checkbox = Unchecked | Checked

  type Span = (nat, nat)

  datatype TaskLine = TaskLine(
    checkbox: Checkbox,
    taskId: Option<string>,
    checkboxSpan: Span,
    idSpan: Option<Span>,
    description: string,
    descriptionBody: string,
    roleHint: Option<string>,
    validationDirective: Directive,
    lineNumber: nat,
    raw: string)

  // ----- The head: indent, block quotes, list marker, checkbox

  /** The code points of the decimal zeros (general category Nd); each starts ten digits. */
  const DECIMAL_ZEROS: set<int> := {
    0x30, 0x660, 0x6f0, 0x7c0, 0x966, 0x9e6, 0xa66, 0xae6, 0xb66, 0xbe6, 0xc66, 0xce6, 0xd66,
    0xde6, 0xe50, 0xed0, 0xf20, 0x1040, 0x1090, 0x17e0, 0x1810, 0x1946, 0x19d0, 0x1a80, 0x1a90,
    0x1b50, 0x1bb0, 0x1c40, 0x1c50, 0xa620, 0xa8d0, 0xa900, 0xa9d0, 0xa9f0, 0xaa50, 0xabf0,
    0xff10, 0x104a0, 0x10d30, 0x10d40, 0x11066, 0x110f0, 0x11136, 0x111d0, 0x112f0, 0x11450,
    0x114d0, 0x11650, 0x116c0, 0x116d0, 0x116da, 0x11730, 0x118e0, 0x11950, 0x11bf0, 0x11c50,
    0x11d50, 0x11da0, 0x11f50, 0x16130, 0x16a60, 0x16ac0, 0x16b50, 0x16d70, 0x1ccf0, 0x1d7ce,
    0x1d7d8, 0x1d7e2, 0x1d7ec, 0x1d7f6, 0x1e140, 0x1e2f0, 0x1e4f0, 0x1e5f1, 0x1e950, 0x1fbf0
  }

  predicate IsDecimalDigit(c: char) {
    '0' <= c <= '9' || (!IsAscii(c) && exists zero | zero in DECIMAL_ZEROS :: zero <= c as int < zero + 10)
  }

  predicate IsBullet(c: char) { c == '-' || c == '*' || c == '+' }

  predicate IsQuoteOrBlank(c: char) { c == '>' || IsBlank(c) }

  /** Past any number of block-quote marks, each followed by blanks. */
  function SkipQuotes(line: string, i: nat): (j: nat)
    requires i <= |line|
    ensures i <= j <= |line|
    ensures forall k | i <= k < j :: IsQuoteOrBlank(line[k])
    ensures j < |line| ==> line[j] != '>'
    ensures i < j ==> line[i] == '>' && (j < |line| ==> !IsBlank(line[j]))
    decreases |line| - i
  {
    if i < |line| && line[i] == '>' then SkipQuotes(line, SkipWhile(IsBlank, line, i + 1)) else i
  }

  predicate IsMarkerChar(c: char) { IsBullet(c) || IsDecimalDigit(c) || c == '.' || c == ')' }

  /** Past a list marker: a bullet, or digits closed by '.' or ')'. */
  function SkipMarker(line: string, i: nat): (j: nat)
    requires i <= |line|
    ensures i <= j <= |line|
    ensures forall k | i <= k < j :: IsMarkerChar(line[k])
  {
    if i < |line| && IsBullet(line[i]) then i + 1
    else
      var j := SkipWhile(IsDecimalDigit, line, i);
      if i < j < |line| && (line[j] == '.' || line[j] == ')') then j + 1 else i
  }

  function BoxStart(line: string): (b: nat)
    ensures b <= |line|
    ensures forall k | 0 <= k < b :: IsQuoteOrBlank(line[k]) || IsMarkerChar(line[k])
  {
    SkipWhile(IsBlank, line, SkipMarker(line, SkipQuotes(line, SkipWhile(IsBlank, line, 0))))
  }

  predicate IsTick(c: char) { c == 'x' || c == 'X' }

  function Closer(c: char): char { if c == '(' then ')' else ']' }

  predicate IsOpener(c: char) { c == '[' || c == '(' }

  /** End of the checkbox that opens at `b`, if one does. */
  function BoxEnd(line: string, b: nat): (e: Option<nat>)
    requires b <= |line|
    ensures e.Some? ==> b + 2 <= e.value <= |line| && IsOpener(line[b])
  {
    if b == |line| || !IsOpener(line[b]) then None
    else
      var i := SkipWhile(IsBlank, line, b + 1);
      var j := if i < |line| && IsTick(line[i]) then i + 1 else i;
      var k := SkipWhile(IsBlank, line, j);
      if k < |line| && line[k] == Closer(line[b]) then Some(k + 1) else None
  }

  /** Span of the checkbox token of a task line's head. */
  function HeadBox(line: string): (box: Option<Span>)
    ensures box.Some? ==> box.value.0 + 2 <= box.value.1 <= |line| && IsOpener(line[box.value.0])
  {
    var b := BoxStart(line);
    match BoxEnd(line, b)
    case None => None
    case Some(e) => Some((b, e))
  }

  // ----- The task id and the rest of the line

  predicate IsIdDecoration(c: char) {
    c == ' ' || c == '\t' || c == '[' || c == '(' || c == '*' || c == '_' || c == '`' || c == '"' || c == '\''
  }

  /** The characters `[A-Za-z0-9_-]` folds onto when matched case-insensitively: the id
      characters, the long s and the Kelvin sign. */
  predicate IsTokenChar(c: char) { IsIdChar(c) || c as int == 0x17F || c as int == 0x212A }

  predicate StartsIdToken(s: string, i: nat) {
    i + 2 < |s| && (s[i] == 't' || s[i] == 'T') && s[i + 1] == '-' && IsTokenChar(s[i + 2])
  }

  predicate IsTaskIdToken(raw: string) { StartsIdToken(raw, 0) && All(IsTokenChar, raw[2..]) }

  datatype Token = Token(start: nat, stop: nat, past: nat)

  function CountOpeners(s: string): nat {
    if s == [] then 0 else CountOpeners(s[..|s| - 1]) + (if IsOpener(s[|s| - 1]) then 1 else 0)
  }

  predicate IsEmphasis(c: char) { c == '*' || c == '_' || c == '`' || c == '"' || c == '\'' }

  /** Past the decoration that closes an id: at most `closers` brackets, any emphasis. */
  function SkipClosers(text: string, end: nat, closers: nat): (past: nat)
    requires end <= |text|
    ensures end <= past <= |text|
    decreases |text| - end
  {
    if end == |text| then end
    else if (text[end] == ']' || text[end] == ')') && closers > 0 then SkipClosers(text, end + 1, closers - 1)
    else if IsEmphasis(text[end]) then SkipClosers(text, end + 1, closers)
    else end
  }

  function LeadingToken(text: string): (t: Option<Token>)
    ensures t.Some? ==> t.value.start < t.value.stop <= t.value.past <= |text|
                        && All(IsIdChar, text[t.value.start..t.value.stop])
  {
    var start := SkipWhile(IsIdDecoration, text, 0);
    var stop := SkipWhile(IsIdChar, text, start);
    if start == stop then None
    else Some(Token(start, stop, SkipClosers(text, stop, CountOpeners(text[..start]))))
  }

  method LeadingTaskIdToken(text: string) returns (t: Option<Token>)
    ensures t == LeadingToken(text)
  {
    var offset, openers := 0, 0;
    while offset < |text| && IsIdDecoration(text[offset])
      invariant 0 <= offset <= |text| && openers == CountOpeners(text[..offset])
      invariant forall k | 0 <= k < offset :: IsIdDecoration(text[k])
    {
      assert text[..offset + 1][..offset] == text[..offset];
      if IsOpener(text[offset]) { openers := openers + 1; }
      offset := offset + 1;
    }
    var stop := SkipWhile(IsIdChar, text, offset);
    if stop == offset { return None; }
    var end, left := stop, openers;
    while end < |text|
      invariant stop <= end <= |text| && 0 <= left
      invariant SkipClosers(text, end, left) == SkipClosers(text, stop, openers)
    {
      if (text[end] == ']' || text[end] == ')') && left > 0 {
        left := left - 1;
      } else if !IsEmphasis(text[end]) {
        break;
      }
      end := end + 1;
    }
    return Some(Token(offset, stop, end));
  }

  // ----- Parsing and ticking one line

  /** What follows the checkbox. */
  datatype Rest = Rest(
    taskId: Option<string>, idSpan: Option<Span>, description: string,
    body: string, roleHint: Option<string>, directive: Directive)

  function ParseRest(rest: string): (r: Rest)
    ensures r.taskId.Some? <==> r.idSpan.Some?
    ensures r.idSpan.Some? ==> r.idSpan.value.0 <= r.idSpan.value.1 <= |rest|
  {
    var (taskId, idSpan, description) :=
      match LeadingToken(rest)
      case None => (None, None, Trim(rest))
      case Some(t) =>
        var token := rest[t.start..t.stop];
        if IsTaskIdToken(token) then (Some(Normalize(token)), Some((t.start, t.stop)), Trim(rest[t.past..]))
        else (None, None, Trim(rest));
    var (undirected, directive) := SplitDirective(description);
    var (body, roleHint) := SplitRoleHint(undirected);
    Rest(taskId, idSpan, description, body, roleHint, directive)
  }

  function Shift(span: Option<Span>, offset: nat): Option<Span> {
    match span
    case None => None
    case Some(s) => Some((s.0 + offset, s.1 + offset))
  }

  function BoxState(inner: string): Checkbox {
    var t := Trim(inner);
    if |t| == 1 && LowerChar(t[0]) == 'x' then Checked else Unchecked
  }

  /** The box lies inside the line, and the id behind the box. */
  predicate Spanned(t: TaskLine) {
    && t.checkboxSpan.0 + 2 <= t.checkboxSpan.1 <= |t.raw|
    && (t.idSpan.Some? ==> t.checkboxSpan.1 <= t.idSpan.value.0 <= t.idSpan.value.1 <= |t.raw|)
  }

  function ParseTaskLineAt(line: string, lineNumber: nat): (t: Option<TaskLine>)
    ensures t.Some? ==> t.value.raw == line && t.value.lineNumber == lineNumber && Spanned(t.value)
                        && HeadBox(line) == Some(t.value.checkboxSpan)
  {
    match HeadBox(line)
    case None => None
    case Some((b, e)) =>
      var r := ParseRest(line[e..]);
      Some(TaskLine(BoxState(line[b + 1..e - 1]), r.taskId, (b, e), Shift(r.idSpan, e),
                    r.description, r.body, r.roleHint, r.directive, lineNumber, line))
  }

  /** The ticked checkbox, in the brackets of the original one. */
  function TickedBox(opener: char): (box: string)
    ensures |box| == 3 && box[0] == (if opener == '(' then '(' else '[') && box[1] == 'x'
            && box[2] == Closer(opener)
  {
    if opener == '(' then ['(', 'x', ')'] else ['[', 'x', ']']
  }

  function Ticked(line: string, box: Span): string
    requires box.0 < box.1 <= |line|
  {
    line[..box.0] + TickedBox(line[box.0]) + line[box.1..]
  }

  function CheckedLine(task: TaskLine): Option<string>
    requires Spanned(task)
  {
    if task.checkbox == Checked then None else Some(Ticked(task.raw, task.checkboxSpan))
  }

  /** A task with its box ticked and everything else as it was: the ticked box is three
      characters wide, so the id moves by the difference. */
  function TickedTask(t: TaskLine): TaskLine
    requires Spanned(t)
  {
    var (b, e) := t.checkboxSpan;
    t.(checkbox := Checked,
       checkboxSpan := (b, b + 3),
       idSpan := match t.idSpan
                 case None => None
                 case Some((i, j)) => Some((i - e + b + 3, j - e + b + 3)),
       raw := Ticked(t.raw, t.checkboxSpan))
  }

  function CheckOffLine(line: string, taskId: string): Option<string> {
    match ParseTaskLineAt(line, 0)
    case None => None
    case Some(task) =>
      if task.checkbox == Checked || task.taskId == None || !TaskIdEq(task.taskId.value, taskId) then None
      else CheckedLine(task)
  }

  // ----- Ticking preserves the parse

  lemma RunEndsUnique(p: char -> bool, s: string, i: nat, j: nat)
    requires RunEndsAt(p, s, i, j)
    ensures SkipWhile(p, s, i) == j
  {}

  /** A run that stops before position `n` stops there in every text with the same first
      `n` characters. */
  lemma RunStable(p: char -> bool, s: string, s': string, i: nat, n: nat)
    requires i <= n <= |s| && n <= |s'| && s[..n] == s'[..n]
    requires SkipWhile(p, s, i) < n
    ensures SkipWhile(p, s', i) == SkipWhile(p, s, i)
  {
    var j := SkipWhile(p, s, i);
    assert forall k | 0 <= k < n :: s[k] == s[..n][k] == s'[k];
    RunEndsUnique(p, s', i, j);
  }

  lemma {:induction false} QuotesStable(s: string, s': string, i: nat, n: nat)
    requires i <= n <= |s| && n <= |s'| && s[..n] == s'[..n]
    requires SkipQuotes(s, i) < n
    ensures SkipQuotes(s', i) == SkipQuotes(s, i)
    decreases |s| - i
  {
    assert s[i] == s[..n][i] == s'[i];
    if s[i] == '>' {
      RunStable(IsBlank, s, s', i + 1, n);
      QuotesStable(s, s', SkipWhile(IsBlank, s, i + 1), n);
    }
  }

  lemma DigitsStayBeforeBox(s: string, i: nat, b: nat)
    requires i <= b < |s| && IsOpener(s[b]) && b == SkipWhile(IsBlank, s, SkipMarker(s, i))
    ensures SkipWhile(IsDecimalDigit, s, i) <= b
  {
    var j := SkipWhile(IsDecimalDigit, s, i);
    assert i < j ==> IsDecimalDigit(s[i]) && !IsBlank(s[i]) && !IsOpener(s[i]);
    assert SkipMarker(s, i) == i && !IsBlank(s[i]) ==> b == i;
  }

  /** The box starts where it did in any line that agrees up to and including the
      opening bracket. */
  lemma BoxStartStable(s: string, s': string)
    requires var b := BoxStart(s);
             b < |s| && b < |s'| && IsOpener(s[b]) && s[..b + 1] == s'[..b + 1]
    ensures BoxStart(s') == BoxStart(s)
  {
    var b := BoxStart(s);
    var n := b + 1;
    assert forall k | 0 <= k < n :: s[k] == s[..n][k] == s'[k];
    var i0 := SkipWhile(IsBlank, s, 0);
    var i1 := SkipQuotes(s, i0);
    RunStable(IsBlank, s, s', 0, n);
    QuotesStable(s, s', i0, n);
    var j := SkipWhile(IsDecimalDigit, s, i1);
    DigitsStayBeforeBox(s, i1, b);
    RunStable(IsDecimalDigit, s, s', i1, n);
    RunStable(IsBlank, s, s', SkipMarker(s, i1), n);
  }

  lemma TickedBoxIsABox(line: string, b: nat)
    requires b + 3 <= |line| && IsOpener(line[b]) && line[b..b + 3] == TickedBox(line[b])
    ensures BoxEnd(line, b) == Some(b + 3) && BoxState(line[b + 1..b + 2]) == Checked
  {
    assert line[b + 1] == line[b..b + 3][1] && line[b + 2] == line[b..b + 3][2];
    RunEndsUnique(IsBlank, line, b + 1, b + 1);
    RunEndsUnique(IsBlank, line, b + 2, b + 2);
    TrimWhileUnique(IsWhitespace, line[b + 1..b + 2], [], line[b + 1..b + 2], []);
  }

  /** Re-reading a ticked line gives the same task with one checkbox flipped. */
  lemma TickedLineParses(line: string, lineNumber: nat)
    requires ParseTaskLineAt(line, lineNumber).Some?
    ensures var task := ParseTaskLineAt(line, lineNumber).value;
            ParseTaskLineAt(Ticked(line, task.checkboxSpan), lineNumber) == Some(TickedTask(task))
  {
    hide ParseRest, BoxStart, BoxEnd, BoxState;
    var (b, e) := HeadBox(line).value;
    var line' := Ticked(line, (b, e));
    assert line'[..b + 1] == line[..b + 1];
    BoxStartStable(line, line');
    assert line'[b] == line[b];
    assert line'[b..b + 3] == TickedBox(line'[b]);
    TickedBoxIsABox(line', b);
    assert line'[b + 3..] == line[e..];
  }

  /** The id of a parsed line is the token spelled at its span, made of id characters
      only, and its own normal form. */
  lemma ParsedIdIsToken(line: string, lineNumber: nat)
    requires ParseTaskLineAt(line, lineNumber).Some? && ParseTaskLineAt(line, lineNumber).value.taskId.Some?
    ensures var task := ParseTaskLineAt(line, lineNumber).value;
            var id := task.taskId.value;
            && IsTaskIdToken(id) && All(IsIdChar, id) && Normalize(id) == id && Key(id) != [] && id != []
            && task.idSpan.Some? && task.checkboxSpan.1 <= task.idSpan.value.0 <= task.idSpan.value.1 <= |line|
            && line[task.idSpan.value.0..task.idSpan.value.1] == id
  {
    hide HeadBox, BoxState, SplitDirective, SplitRoleHint, LeadingToken, Trim, TrimWhile, Normalize, Lower;
    var task := ParseTaskLineAt(line, lineNumber).value;
    var e := task.checkboxSpan.1;
    var rest := line[e..];
    var t := LeadingToken(rest).value;
    var token := rest[t.start..t.stop];
    IdTokenIsNormalized(token);
    assert line[e + t.start..e + t.stop] == token;
  }

  /** An id read off a plan line can only be refused for its length. */
  lemma ParsedIdAcceptedUnlessTooLong(line: string, lineNumber: nat)
    requires ParseTaskLineAt(line, lineNumber).Some? && ParseTaskLineAt(line, lineNumber).value.taskId.Some?
    ensures var id := ParseTaskLineAt(line, lineNumber).value.taskId.value;
            ValidateTaskId(id) == (if |id| <= MAX_TASK_ID_LEN then Accepted(id)
                             else Rejected(TooLong(|id|, MAX_TASK_ID_LEN)))
  {
    hide *;
    ParsedIdIsToken(line, lineNumber);
    IdTokenAcceptedUnlessTooLong(ParseTaskLineAt(line, lineNumber).value.taskId.value);
  }
}
