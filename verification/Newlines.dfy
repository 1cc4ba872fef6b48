/** Newline normalization and its interplay with check-off (src/plan_parse.rs). */
module Newlines {
  import opened Text
  import opened TaskId
  import opened TrailingGroups
  import opened TaskLines
  import opened Lines
  import opened PlanDocument
  import opened CheckOffTheorems
  import opened CheckOffOrder

  /** `\r\n` and a lone `\r` both become `\n`. */
  function Normalized(s: string): string {
    if s == [] then []
    else if s[0] == '\r' then LF + Normalized(s[if |s| > 1 && s[1] == '\n' then 2 else 1..])
    else [s[0]] + Normalized(s[1..])
  }

  predicate NoCarriageReturn(s: string) { forall k | 0 <= k < |s| :: s[k] != '\r' }

  lemma {:induction false} NormalizedPrefix(body: string, rest: string)
    requires NoCarriageReturn(body)
    ensures Normalized(body + rest) == body + Normalized(rest)
  {
    if body == [] {
      assert body + rest == rest;
    } else {
      assert (body + rest)[1..] == body[1..] + rest;
      NormalizedPrefix(body[1..], rest);
    }
  }

  /** One iteration of the normalizing loop. */
  lemma NormalizedStep(text: string, i: nat)
    requires i < |text|
    ensures var n := if text[i] == '\r' && i + 1 < |text| && text[i + 1] == '\n' then 2 else 1;
            Normalized(text[i..]) == [if text[i] == '\r' then '\n' else text[i]] + Normalized(text[i + n..])
  {
    var rest := text[i..];
    assert rest[1..] == text[i + 1..];
    if |rest| > 1 {
      assert rest[1] == text[i + 1] && rest[2..] == text[i + 2..];
    }
  }

  method NormalizeNewlines(text: string) returns (out: string)
    ensures out == Normalized(text)
  {
    hide Normalized;
    NormalizedEmpty();
    if NoCarriageReturn(text) {
      NormalizedPrefix(text, []);
      assert text + [] == text;
      return text;
    }
    out := [];
    var i := 0;
    assert text[0..] == text;
    while i < |text|
      invariant 0 <= i <= |text|
      invariant out + Normalized(text[i..]) == Normalized(text)
    {
      NormalizedStep(text, i);
      var ch := text[i];
      i := i + 1;
      if ch == '\r' {
        if i < |text| && text[i] == '\n' {
          i := i + 1;
        }
        out := out + ['\n'];
      } else {
        out := out + [ch];
      }
    }
    assert text[i..] == [];
  }

  lemma {:induction false} NormalizedHasNoCarriageReturn(s: string)
    ensures NoCarriageReturn(Normalized(s))
    decreases |s|
  {
    if s != [] {
      NormalizedHasNoCarriageReturn(s[1..]);
      if |s| > 1 { NormalizedHasNoCarriageReturn(s[2..]); }
    }
  }

  /** A carriage return becomes a newline, with the newline behind it if there is one. */
  lemma ReturnBecomesNewline(front: string, rest: string)
    requires NoCarriageReturn(front)
    ensures Normalized(front + CRLF + rest) == front + LF + Normalized(rest)
    ensures (rest == [] || rest[0] != '\n') ==> Normalized(front + ['\r'] + rest) == front + LF + Normalized(rest)
  {
    hide Normalized;
    assert front + CRLF + rest == front + (CRLF + rest) && front + ['\r'] + rest == front + (['\r'] + rest);
    NormalizedPrefix(front, CRLF + rest);
    NormalizedPrefix(front, ['\r'] + rest);
    NormalizedEol(CRLF, rest);
    if rest == [] || rest[0] != '\n' { LoneReturn(rest); }
  }

  lemma LoneReturn(rest: string)
    requires rest == [] || rest[0] != '\n'
    ensures Normalized(['\r'] + rest) == LF + Normalized(rest)
  {
    assert (['\r'] + rest)[1..] == rest;
  }

  lemma NormalizationIsIdempotent(s: string)
    ensures Normalized(Normalized(s)) == Normalized(s)
  {
    NormalizedHasNoCarriageReturn(s);
    NormalizedPrefix(Normalized(s), []);
    assert Normalized(s) + [] == Normalized(s);
  }

  // ----- Normalization, chunk by chunk

  function ToLf(c: Chunk): Chunk { if c.eol == CRLF then c.(eol := LF) else c }

  function AllToLf(cs: seq<Chunk>): (r: seq<Chunk>)
    ensures |r| == |cs| && forall i | 0 <= i < |cs| :: r[i] == ToLf(cs[i])
  {
    seq(|cs|, i requires 0 <= i < |cs| => ToLf(cs[i]))
  }

  /** Every carriage return of the text belongs to a `\r\n`. */
  ghost predicate OnlyCrLf(text: string) {
    forall i | 0 <= i < |text| && text[i] == '\r' :: i + 1 < |text| && text[i + 1] == '\n'
  }

  ghost predicate CleanChunk(c: Chunk) {
    NoCarriageReturn(c.body) && (c.eol == [] || c.eol == LF || c.eol == CRLF)
  }

  lemma NormalizedChunk(c: Chunk, rest: string)
    requires CleanChunk(c)
    ensures Normalized(c.body + c.eol + rest) == c.body + ToLf(c).eol + Normalized(rest)
  {
    hide Normalized;
    NormalizedPrefix(c.body, c.eol + rest);
    NormalizedEol(c.eol, rest);
    assert c.body + c.eol + rest == c.body + (c.eol + rest);
    assert c.body + ToLf(c).eol + Normalized(rest) == c.body + (ToLf(c).eol + Normalized(rest));
  }

  lemma NormalizedEol(eol: string, rest: string)
    requires eol == [] || eol == LF || eol == CRLF
    ensures Normalized(eol + rest) == (if eol == [] then [] else LF) + Normalized(rest)
  {
    if eol == LF {
      NormalizedPrefix(LF, rest);
    } else if eol == CRLF {
      assert (CRLF + rest)[2..] == rest;
    } else {
      assert eol + rest == rest;
    }
  }

  lemma {:induction false} NormalizedChunks(cs: seq<Chunk>)
    requires forall i | 0 <= i < |cs| :: CleanChunk(cs[i])
    ensures Normalized(Unchunk(cs)) == Unchunk(AllToLf(cs))
    decreases |cs|
  {
    hide CleanChunk, ToLf, Normalized;
    if cs == [] {
      NormalizedPrefix([], []);
      NormalizedEmpty();
    } else {
      NormalizedChunks(cs[1..]);
      NormalizedChunk(cs[0], Unchunk(cs[1..]));
      SameBody(cs[0]);
      assert AllToLf(cs)[1..] == AllToLf(cs[1..]);
    }
  }

  lemma NormalizedEmpty() ensures Normalized([]) == [] {}

  lemma SameBody(c: Chunk) ensures ToLf(c).body == c.body {}

  lemma {:induction false} ChunksAreClean(text: string)
    requires OnlyCrLf(text)
    ensures forall i | 0 <= i < |Chunks(text)| :: CleanChunk(Chunks(text)[i])
    decreases |text|
  {
    hide SplitEol, PieceEnd;
    if text != [] {
      var c, rest := FirstChunk(text);
      assert forall i | 0 <= i < |rest| :: rest[i] == text[i + |c.body + c.eol|];
      assert forall i | 0 <= i < |c.body| :: text[i] == c.body[i];
      assert c.eol != [] ==> text[|c.body|] == c.eol[0];
      BodyIsClean(text, c, rest);
      ChunksAreClean(rest);
    }
  }

  lemma BodyIsClean(text: string, c: Chunk, rest: string)
    requires OnlyCrLf(text) && text == c.body + c.eol + rest && IsChunk(c, rest == [])
    ensures CleanChunk(c)
  {
    forall i | 0 <= i < |c.body| ensures c.body[i] != '\r' {
      assert text[i] == c.body[i];
      if i + 1 < |c.body| {
        assert text[i + 1] == c.body[i + 1];
      } else if c.eol != [] {
        assert text[i + 1] == c.eol[0];
      } else {
        assert i + 1 == |text|;
      }
    }
  }

  lemma LfChunksAreChunks(cs: seq<Chunk>)
    requires AreChunks(cs) && forall i | 0 <= i < |cs| :: CleanChunk(cs[i])
    ensures Chunks(Unchunk(AllToLf(cs))) == AllToLf(cs)
  {
    UnchunkRoundTrip(AllToLf(cs));
  }

  /** The normalized text has the same lines, each ended by a plain line feed. */
  lemma NormalizedLines(text: string)
    requires OnlyCrLf(text)
    ensures Chunks(Normalized(text)) == AllToLf(Chunks(text))
    ensures LinesOf(Normalized(text)) == LinesOf(text)
  {
    hide CleanChunk, Normalized, Chunks, Unchunk;
    ChunksRoundTrip(text);
    ChunksAreClean(text);
    NormalizedChunks(Chunks(text));
    LfChunksAreChunks(Chunks(text));
    assert Bodies(AllToLf(Chunks(text))) == Bodies(Chunks(text));
  }

  lemma TickedIsClean(line: string, box: (nat, nat))
    requires NoCarriageReturn(line) && box.0 < box.1 <= |line|
    ensures NoCarriageReturn(Ticked(line, box))
  {}

  lemma TickedChunksAreClean(text: string, k: nat, text': string)
    requires TicksLine(text, k, text')
    requires forall i | 0 <= i < |Chunks(text)| :: CleanChunk(Chunks(text)[i])
    ensures var cs, cs' := Chunks(text), Chunks(text');
            && k < |cs| == |cs'| && cs' == WithBody(cs, k, cs'[k].body) && CleanChunk(cs'[k])
  {
    var task := TaskAt(LinesOf(text), k).value;
    assert Spanned(task) && task.raw == Chunks(text)[k].body;
    hide TaskAt, Ticked, Chunks;
    TickedIsClean(task.raw, task.checkboxSpan);
  }

  lemma NormalizedTick(text: string, k: nat, text': string)
    requires OnlyCrLf(text) && TicksLine(text, k, text')
    ensures Chunks(Normalized(text')) == AllToLf(Chunks(text')) && LinesOf(Normalized(text')) == LinesOf(text')
    ensures TicksLine(Normalized(text), k, Normalized(text'))
  {
    hide TaskAt, Normalized, Chunks, Unchunk, Ticked, CleanChunk, OnlyCrLf;
    ChunksAreClean(text);
    TickedChunksAreClean(text, k, text');
    var cs, cs' := Chunks(text), Chunks(text');
    ChunksRoundTrip(text');
    NormalizedLines(text);
    NormalizedChunks(cs');
    LfChunksAreChunks(cs');
    assert AllToLf(cs') == WithBody(AllToLf(cs), k, cs'[k].body);
    assert Bodies(AllToLf(cs')) == Bodies(cs');
  }

  /** On texts whose carriage returns all belong to a `\r\n`, normalizing before a
      check-off or after it makes no difference. */
  lemma NormalizationCommutesWithCheckOff(text: string, taskId: string)
    requires OnlyCrLf(text)
    ensures var (text', flipped) := CheckOffContent(text, taskId);
            CheckOffContent(Normalized(text), taskId) == (Normalized(text'), flipped)
  {
    hide CheckOffContent, IsFirstPending, TicksLine, SameButTicked, NonePending, Key, Normalized, LinesOf;
    CheckOffPreservesParse(text, taskId);
    CheckOffPreservesParse(Normalized(text), taskId);
    NormalizedLines(text);
    var (text', flipped) := CheckOffContent(text, taskId);
    var (norm', flipped') := CheckOffContent(Normalized(text), taskId);
    if flipped {
      var lines, key := LinesOf(text), Key(taskId);
      var k: nat :|
        IsFirstPending(lines, k, key) && TicksLine(text, k, text') && SameButTicked(lines, k, LinesOf(text'));
      NormalizedTick(text, k, text');
    }
    OutcomeUnique(Normalized(text), Key(taskId), norm', flipped', Normalized(text'), flipped);
  }

  // ----- A carriage return on its own

  const PENDING_LINE: string := "- [ ] t-1"

  lemma PendingLineBox()
    ensures HeadBox(PENDING_LINE) == Some((2, 5)) && BoxState(PENDING_LINE[3..4]) == Unchecked
  {
    var line := PENDING_LINE;
    RunEndsUnique(IsBlank, line, 0, 0);
    RunEndsUnique(IsBlank, line, 1, 2);
    RunEndsUnique(IsBlank, line, 3, 4);
    RunEndsUnique(IsBlank, line, 4, 4);
    assert line[3..4] == " " + [] + [];
    TrimWhileUnique(IsWhitespace, line[3..4], " ", [], []);
  }

  lemma PendingLineToken()
    ensures LeadingToken(" t-1") == Some(Token(1, 4, 4)) && IsTaskIdToken("t-1") && Normalize("t-1") == "t-1"
  {
    var rest := " t-1";
    RunEndsUnique(IsIdDecoration, rest, 0, 1);
    RunEndsUnique(IsIdChar, rest, 1, 4);
    IdTokenIsNormalized("t-1");
    hide Normalize;
  }

  lemma PendingLineParses(lineNumber: nat)
    ensures var t := ParseTaskLineAt(PENDING_LINE, lineNumber);
            t.Some? && t.value.checkbox == Unchecked && t.value.taskId == Some("t-1")
  {
    PendingLineBox();
    PendingLineToken();
    hide HeadBox, BoxState, LeadingToken, IsTaskIdToken, Normalize, Trim, SplitDirective, SplitRoleHint;
    assert PENDING_LINE[5..] == " t-1";
    assert " t-1"[1..4] == "t-1";
  }

  /** Normalizing splits a line at a lone carriage return and can uncover a task there: the
      call flips nothing in the text, and a box in the normalized text. */
  lemma LoneCarriageReturnUncoversATask()
    ensures var text := ['x', '\r'] + PENDING_LINE;
            !CheckOffContent(text, "t-1").1 && CheckOffContent(Normalized(text), "t-1").1
  {
    NothingBehindTheReturn();
    UncoveredTask();
  }

  lemma NothingBehindTheReturn()
    ensures !CheckOffContent(['x', '\r'] + PENDING_LINE, "t-1").1
  {
    var text := ['x', '\r'] + PENDING_LINE;
    OnlyLine(text);
    RunEndsUnique(IsBlank, text, 0, 0);
    RunEndsUnique(IsDecimalDigit, text, 0, 0);
    assert HeadBox(text) == None;
    hide HeadBox, LinesOf, CheckOffContent;
    CheckOffTicksFirstPending(text, "t-1");
    hide IsFirstPending, TicksLine, NonePending;
    NoFirstPending(text);
  }

  lemma NoFirstPending(text: string)
    requires LinesOf(text) == [text] && HeadBox(text) == None
    ensures forall k: nat :: !IsFirstPending(LinesOf(text), k, Key("t-1"))
  {
    hide HeadBox, Scannable, LinesOf, Key;
    assert ParseTaskLineAt(text, 0) == None;
  }

  lemma NormalizedAtTheReturn(line: string)
    requires NoCarriageReturn(line) && line != [] && line[0] != '\n'
    ensures Normalized(['x', '\r'] + line) == "x" + LF + line
  {
    var text := ['x', '\r'] + line;
    NormalizedPrefix(line, []);
    NormalizedEmpty();
    NormalizedStep(text, 0);
    NormalizedStep(text, 1);
    hide Normalized;
    assert text[0..] == text && text[2..] == line && line + [] == line;
  }

  lemma NormalizedLinesAtTheReturn()
    ensures LinesOf("x" + LF + PENDING_LINE) == ["x", PENDING_LINE]
  {
    OnlyLine(PENDING_LINE);
    FirstLine("x", PENDING_LINE);
  }

  lemma UncoveredTask()
    ensures CheckOffContent(Normalized(['x', '\r'] + PENDING_LINE), "t-1").1
  {
    var lines := ["x", PENDING_LINE];
    NormalizedAtTheReturn(PENDING_LINE);
    NormalizedLinesAtTheReturn();
    CheckOffTicksFirstPending("x" + LF + PENDING_LINE, "t-1");
    PendingLineParses(1);
    XIsNoFence();
    hide Scannable, IsFirstPending, TicksLine, Key, ParseTaskLineAt, Normalized, LinesOf, CheckOffContent;
    assert IsPending(TaskAt(lines, 1), Key("t-1"));
  }

  lemma XIsNoFence()
    ensures Scannable(["x", PENDING_LINE], 1)
  {
    hide ParseTaskLineAt, HeadBox, FenceDelimiter;
    PendingLineParses(0);
    TaskLineIsNoFence(PENDING_LINE);
    XIsPlain();
    assert StateAt(["x", PENDING_LINE], 0) == Outside;
  }

  lemma XIsPlain()
    ensures FenceDelimiter("x") == None
  {
    RunEndsUnique(IsWhitespace, "x", 0, 0);
  }
}
