/** Exactly when the reason of an aborted deliverable reads back (src/markers.rs). */
module AbortReasons {
  import opened Text
  import opened Patterns
  import opened Counters
  import opened Lines
  import opened Verdicts
  import opened FailureReasons

  const TRAILER: string := FAILED_PAREN + ABORT_REASON + [')']

  /** What the row for `FAILED:` says, the full stop that follows the context included. */
  predicate ColonSaysAborted(context: string) {
    match Find(context, FAILED_COLON, 0)
    case None => false
    case Some(d) => d + 7 <= |context| && Trim(FirstNonEmptyLine(context[d + 7..] + ['.'])) == ABORT_REASON
  }

  /** No `FAILED (` in the context, or the first one says the same itself, or its clause is
      closed and blank and the first `FAILED:` says the same. */
  predicate SaysAborted(context: string) {
    match Find(context, FAILED_PAREN, 0)
    case None => true
    case Some(c) =>
      c + 8 <= |context|
      && match FindChar(context[c + 8..], ')', 0)
         case None => false
         case Some(q) =>
           var clause := Trim(context[c + 8..c + 8 + q]);
           clause == ABORT_REASON || (clause == [] && ColonSaysAborted(context))
  }

  /** The clause of the first replan verdict, which comes before everything else; blank
      without one. */
  function ReplanSays(text: string): string {
    match Find(text, REPLAN, 0)
    case None => []
    case Some(p) =>
      OccurrenceFits(text, REPLAN, p);
      Trim(Clause(OptionalParenThenColonLine, text[p + |REPLAN|..]).value)
  }

  // ----- Rows of the table

  /** The trimmed clause of one row; blank when the row says nothing. */
  function RowSays(text: string, v: FailureVerdict): string {
    match Find(text, v.prefix, 0)
    case None => []
    case Some(p) =>
      OccurrenceFits(text, v.prefix, p);
      match Clause(v.shape, text[p + |v.prefix|..])
      case None => []
      case Some(clause) => Trim(clause)
  }

  lemma WalkOne(text: string, v: FailureVerdict, rest: seq<FailureVerdict>)
    ensures ReasonFrom(text, [v] + rest) ==
            if RowSays(text, v) != [] then Some(RowSays(text, v)) else ReasonFrom(text, rest)
  {
    hide Clause, Trim, Find;
    assert ([v] + rest)[1..] == rest;
  }

  lemma WalkAll(text: string)
    ensures var paren, colon := RowSays(text, FailureVerdict(FAILED_PAREN, Parenthesis)),
                                RowSays(text, FailureVerdict(FAILED_COLON, ColonLine));
            FailureReason(text) ==
              if ReplanSays(text) != [] then Some(ReplanSays(text))
              else if paren != [] then Some(paren) else if colon != [] then Some(colon) else None
  {
    var first := FailureVerdict(REPLAN, OptionalParenThenColonLine);
    var second, third := FailureVerdict(FAILED_PAREN, Parenthesis), FailureVerdict(FAILED_COLON, ColonLine);
    assert RowSays(text, first) == ReplanSays(text);
    TableWalk(text);
    NoRows(text);
    assert [third] + [] == [third];
    hide RowSays, ReplanSays, ReasonFrom, FailureReason;
    WalkOne(text, third, []);
    WalkOne(text, second, [third]);
    WalkOne(text, first, [second] + [third]);
  }

  lemma NoRows(text: string)
    ensures ReasonFrom(text, []) == None
  {}

  // ----- Prefixes in the context

  lemma ColonFacts()
    ensures |FAILED_COLON| == 7 && FAILED_COLON[0] == 'F' && FAILED_COLON[6] == ':' && !Has(FAILED_COLON, '.')
    ensures !Has(TRAILER, ':') && |TRAILER| == 16
  {}

  /** A prefix in the context is found there, behind the frame's first word. */
  lemma FoundInContext(context: string, w: string, c: nat)
    requires w != [] && w[0] == 'F' && !Has(w, '.') && Find(context, w, 0) == Some(c)
    ensures Find(HEAD + context + BREAK + TRAILER, w, 0) == Some(|HEAD| + c)
  {
    PrefixFacts();
    var text, h := HEAD + context + BREAK + TRAILER, |HEAD|;
    OccurrenceFits(context, w, c);
    OccurrenceShifts(context, w, c);
    hide OccursAt, Has, Contains;
    forall i: nat | i < h + c
      ensures !OccursAt(text, w, i)
    {
      if OccursAt(text, w, i) { OnlyInContext(context, TRAILER, w, i); }
    }
    FoundFirst(text, w, h + c);
  }

  lemma FoundFirst(s: string, w: string, p: nat)
    requires OccursAt(s, w, p) && p <= |s| && forall i: nat | i < p :: !OccursAt(s, w, i)
    ensures Find(s, w, 0) == Some(p)
  {
    hide OccursAt;
  }

  lemma OccurrenceShifts(context: string, w: string, c: nat)
    requires OccursAt(context, w, c)
    ensures OccursAt(HEAD + context + BREAK + TRAILER, w, |HEAD| + c)
  {
    var text := HEAD + context + BREAK + TRAILER;
    assert forall k | 0 <= k < |context| :: text[|HEAD| + k] == context[k];
    forall k | 0 <= k < |w| ensures text[|HEAD| + c + k] == w[k] { assert context[c + k] == w[k]; }
  }

  lemma BehindPrefix(context: string, c: nat, n: nat)
    requires c + n <= |context|
    ensures (HEAD + context + BREAK + TRAILER)[|HEAD| + c + n..] == context[c + n..] + BREAK + TRAILER
  {}

  lemma NoColonOutside(context: string)
    requires Find(context, FAILED_COLON, 0) == None
    ensures Find(HEAD + context + BREAK + TRAILER, FAILED_COLON, 0) == None
  {
    PrefixFacts();
    ColonFacts();
    var front := HEAD + context + BREAK;
    var text, w := front + TRAILER, FAILED_COLON;
    forall i: nat
      ensures !OccursAt(text, w, i)
    {
      if OccursAt(text, w, i) {
        ColonInTrailer(front, i);
        OnlyInContext(context, TRAILER, w, i);
      }
    }
  }

  lemma ColonInTrailer(front: string, i: nat)
    requires OccursAt(front + TRAILER, FAILED_COLON, i)
    ensures i < |front|
  {
    ColonFacts();
    var text := front + TRAILER;
    assert forall q | |front| <= q < |text| :: text[q] == TRAILER[q - |front|] && text[q] != ':';
    CharAt(text, FAILED_COLON, i, 6);
  }

  // ----- The two rows, in terms of the context

  lemma ClosedClause(rest: string, q: nat, tail: string)
    requires FindChar(rest, ')', 0) == Some(q)
    ensures Clause(Parenthesis, rest + tail) == Some(rest[..q])
  {
    var after := rest + tail;
    assert forall k | 0 <= k <= q :: after[k] == rest[k];
    assert FindChar(after, ')', 0) == Some(q);
    assert after[..q] == rest[..q];
  }

  /** A clause that runs on into the trailer is not blank and does not read as the reason. */
  lemma OpenClause(rest: string)
    requires FindChar(rest, ')', 0) == None
    ensures var clause := Clause(Parenthesis, rest + BREAK + TRAILER);
            clause.Some? && Trim(clause.value) != [] && Trim(clause.value) != ABORT_REASON
  {
    var clause := rest + BREAK + (FAILED_PAREN + ABORT_REASON);
    var after := rest + BREAK + TRAILER;
    assert after == clause + [')'];
    var back := BREAK + (FAILED_PAREN + ABORT_REASON);
    assert clause == rest + back;
    NoClosingInBack();
    assert forall k | 0 <= k < |rest| :: clause[k] == rest[k];
    assert forall k | |rest| <= k < |clause| :: clause[k] == back[k - |rest|] && clause[k] != ')';
    assert forall k | 0 <= k < |clause| :: after[k] == clause[k];
    assert after[|clause|] == ')';
    assert FindChar(after, ')', 0) == Some(|clause|);
    assert after[..|clause|] == clause;
    DotSurvivesTrim(clause, |rest|);
  }

  lemma NoClosingInBack()
    ensures !Has(BREAK + (FAILED_PAREN + ABORT_REASON), ')')
  {}

  lemma DotSurvivesTrim(s: string, k: nat)
    requires k < |s| && s[k] == '.'
    ensures Trim(s) != [] && Trim(s) != ABORT_REASON
  {
    var pre, post := TrimWhileParts(IsWhitespace, s);
    var core := Trim(s);
    assert |pre| <= k < |pre| + |core| by { DotIsInside(pre, core, post, k); }
    assert core[k - |pre|] == '.';
    assert !Has(ABORT_REASON, '.');
  }

  lemma DotIsInside(pre: string, core: string, post: string, k: nat)
    requires All(IsWhitespace, pre) && All(IsWhitespace, post)
    requires k < |pre + core + post| && (pre + core + post)[k] == '.'
    ensures |pre| <= k < |pre| + |core|
  {}

  /** The first line of the context's rest and full stop that is not blank decides; what
      follows them does not. */
  lemma {:induction false} LineBeforeTheBreak(r: string, tail: string)
    ensures FirstNonEmptyLine(r + ['.'] + LF + tail) == FirstNonEmptyLine(r + ['.'])
    decreases |r|
  {
    hide *;
    var s := r + ['.'];
    var c, rest := FirstChunk(s);
    if rest == [] {
      LastLineBeforeTheBreak(s, c, tail);
    } else {
      var r' := rest[..|rest| - 1];
      StopIsLast(r, c.body + c.eol, rest);
      LineBeforeTheBreak(r', tail);
      LaterLines(c, rest, s, LF + tail);
      assert s + LF + tail == s + (LF + tail) && rest + LF + tail == rest + (LF + tail);
    }
  }

  lemma StopIsLast(r: string, piece: string, rest: string)
    requires r + ['.'] == piece + rest && rest != []
    ensures rest == rest[..|rest| - 1] + ['.'] && |rest| - 1 <= |r| && (piece != [] ==> |rest| - 1 < |r|)
  {
    var s := r + ['.'];
    assert s[|s| - 1] == '.' && s[|s| - 1] == rest[|rest| - 1];
  }

  lemma LastLineBeforeTheBreak(s: string, c: Chunk, tail: string)
    requires s != [] && s[|s| - 1] == '.' && IsChunk(c, true) && s == c.body + c.eol + []
    ensures FirstNonEmptyLine(s + LF + tail) == FirstNonEmptyLine(s)
  {
    hide Trim, Chunks, Bodies;
    StopEndsTheLine(s, c);
    OnlyLine(s);
    FirstLine(s, tail);
    hide LinesOf;
    NonBlankFirst(s, LinesOf(tail));
    NonBlankFirst(s, []);
    assert [s] + [] == [s];
  }

  lemma StopEndsTheLine(s: string, c: Chunk)
    requires s != [] && s[|s| - 1] == '.' && IsChunk(c, true) && s == c.body + c.eol + []
    ensures c.body == s && NoNewline(s) && !EndsWith(s, '\r') && Trim(s) != []
  {
    assert (c.body + LF)[|c.body|] == '\n' && (c.body + CRLF)[|c.body| + 1] == '\n';
    assert c.eol == [];
    DotSurvivesTrim(s, |s| - 1);
  }

  lemma NonBlankFirst(line: string, lines: seq<string>)
    requires Trim(line) != []
    ensures FirstNonBlank([line] + lines) == line
  {
    hide Trim;
  }

  lemma LaterLines(c: Chunk, rest: string, s: string, tail: string)
    requires IsChunk(c, false) && s == c.body + c.eol + rest
    ensures FirstNonEmptyLine(s) == if Trim(c.body) != [] then c.body else FirstNonEmptyLine(rest)
    ensures FirstNonEmptyLine(s + tail) == if Trim(c.body) != [] then c.body else FirstNonEmptyLine(rest + tail)
  {
    hide IsChunk, Trim, Chunks;
    ChunkAnywhere(c, rest == []);
    ChunkAnywhere(c, rest + tail == []);
    ConsPiece(c, rest);
    ConsPiece(c, rest + tail);
    assert s + tail == c.body + c.eol + (rest + tail);
    FirstOfLines(c, Chunks(rest));
    FirstOfLines(c, Chunks(rest + tail));
  }

  lemma ChunkAnywhere(c: Chunk, last: bool)
    requires IsChunk(c, false)
    ensures IsChunk(c, last)
  {}

  lemma FirstOfLines(c: Chunk, cs: seq<Chunk>)
    ensures FirstNonBlank(Bodies([c] + cs)) == if Trim(c.body) != [] then c.body else FirstNonBlank(Bodies(cs))
  {
    hide Trim;
    assert Bodies([c] + cs)[1..] == Bodies(cs);
  }

  lemma ColonRow(context: string)
    ensures RowSays(HEAD + context + BREAK + TRAILER, FailureVerdict(FAILED_COLON, ColonLine)) == ABORT_REASON
            <==> ColonSaysAborted(context)
  {
    hide OccursAt, Find, Trim, FirstNonEmptyLine, Has, RowSays, ColonSaysAborted;
    var text, v := HEAD + context + BREAK + TRAILER, FailureVerdict(FAILED_COLON, ColonLine);
    ColonFacts();
    match Find(context, FAILED_COLON, 0)
    case None =>
      NoColonOutside(context);
      NoColonNoReason(text, context);
    case Some(d) =>
      OccurrenceFits(context, FAILED_COLON, d);
      FoundInContext(context, FAILED_COLON, d);
      BehindPrefix(context, d, 7);
      assert |HEAD| + d + 7 <= |text|;
      ColonRowAt(text, context, |HEAD| + d, d);
  }

  lemma NoColonNoReason(text: string, context: string)
    requires Find(text, FAILED_COLON, 0) == None && Find(context, FAILED_COLON, 0) == None
    ensures RowSays(text, FailureVerdict(FAILED_COLON, ColonLine)) == [] && !ColonSaysAborted(context)
  {
    hide Find;
  }

  lemma ColonClause(after: string)
    ensures Clause(ColonLine, after) == Some(FirstNonEmptyLine(after))
  {}

  lemma BreakInLines(rest: string, t: string)
    ensures rest + BREAK + t == rest + ['.'] + LF + (LF + t)
  {
    assert BREAK == ['.'] + LF + LF;
  }

  lemma ColonRowAt(text: string, context: string, p: nat, d: nat)
    requires Find(text, FAILED_COLON, 0) == Some(p) && Find(context, FAILED_COLON, 0) == Some(d)
    requires d + 7 <= |context| && p + 7 <= |text| && text[p + 7..] == context[d + 7..] + BREAK + TRAILER
    ensures RowSays(text, FailureVerdict(FAILED_COLON, ColonLine)) == ABORT_REASON <==> ColonSaysAborted(context)
  {
    hide Find, Trim, FirstNonEmptyLine, RowSays, Has, Clause;
    ColonFacts();
    ColonClause(context[d + 7..] + BREAK + TRAILER);
    var rest := context[d + 7..];
    BreakInLines(rest, TRAILER);
    LineBeforeTheBreak(rest, LF + TRAILER);
    RowIs(text, FailureVerdict(FAILED_COLON, ColonLine), p, FirstNonEmptyLine(rest + BREAK + TRAILER));
  }

  lemma RowIs(text: string, v: FailureVerdict, p: nat, clause: string)
    requires Find(text, v.prefix, 0) == Some(p) && p + |v.prefix| <= |text|
    requires Clause(v.shape, text[p + |v.prefix|..]) == Some(clause)
    ensures RowSays(text, v) == Trim(clause)
  {
    hide Find, Clause, Trim;
  }

  /** With a `FAILED (` in the context: what its row says. */
  lemma ParenRow(context: string, c: nat)
    requires Find(context, FAILED_PAREN, 0) == Some(c)
    ensures c + 8 <= |context|
    ensures var says := RowSays(HEAD + context + BREAK + TRAILER, FailureVerdict(FAILED_PAREN, Parenthesis));
            match FindChar(context[c + 8..], ')', 0)
            case None => says != [] && says != ABORT_REASON
            case Some(q) => says == Trim(context[c + 8..c + 8 + q])
  {
    hide *;
    PrefixFacts();
    OccurrenceFits(context, FAILED_PAREN, c);
    FoundInContext(context, FAILED_PAREN, c);
    BehindPrefix(context, c, 8);
    var rest := context[c + 8..];
    OccurrenceEnds(HEAD + context + BREAK + TRAILER, |HEAD| + c);
    ParenRowAt(HEAD + context + BREAK + TRAILER, |HEAD| + c, rest);
    assert forall q | 0 <= q <= |rest| :: rest[..q] == context[c + 8..c + 8 + q];
  }

  lemma OccurrenceEnds(text: string, p: nat)
    requires Find(text, FAILED_PAREN, 0) == Some(p)
    ensures p + 8 <= |text|
  {
    PrefixFacts();
    OccurrenceFits(text, FAILED_PAREN, p);
  }

  lemma ParenRowAt(text: string, p: nat, rest: string)
    requires Find(text, FAILED_PAREN, 0) == Some(p) && p + 8 <= |text| && text[p + 8..] == rest + BREAK + TRAILER
    ensures var says := RowSays(text, FailureVerdict(FAILED_PAREN, Parenthesis));
            match FindChar(rest, ')', 0)
            case None => says != [] && says != ABORT_REASON
            case Some(q) => says == Trim(rest[..q])
  {
    hide *;
    PrefixFacts();
    var v := FailureVerdict(FAILED_PAREN, Parenthesis);
    match FindChar(rest, ')', 0)
    case None =>
      OpenClause(rest);
      RowIs(text, v, p, Clause(Parenthesis, rest + BREAK + TRAILER).value);
    case Some(q) =>
      assert rest + BREAK + TRAILER == rest + (BREAK + TRAILER);
      ClosedClause(rest, q, BREAK + TRAILER);
      RowIs(text, v, p, rest[..q]);
  }

  /** Without one, the trailer's row says the reason. */
  lemma TrailerRow(context: string)
    requires Find(context, FAILED_PAREN, 0) == None
    ensures RowSays(HEAD + context + BREAK + TRAILER, FailureVerdict(FAILED_PAREN, Parenthesis)) == ABORT_REASON
  {
    PrefixFacts();
    AbortedText(context);
    assert HEAD + context + BREAK + TRAILER == AbortedDeliverable(context);
    var text, t := HEAD + context + BREAK + TRAILER, |HEAD + context + BREAK|;
    assert text[t + 8..] == ABORT_REASON + [')'];
    hide AbortedDeliverable, Clause, Trim, OccursAt, Has;
    PrefixFoundAtTrailer(context);
    BracketClause(text[t + 8..], ABORT_REASON);
    TrimmedStays(ABORT_REASON);
  }

  /** The reason of an aborted deliverable is the abort reason exactly when a replan verdict in
      the text says so or, without one that says anything, the context does not say otherwise. */
  lemma AbortReasonExactlyWhen(context: string)
    ensures var replan := ReplanSays(AbortedDeliverable(context));
            FailureReason(AbortedDeliverable(context)) == Some(ABORT_REASON)
            <==> (if replan != [] then replan == ABORT_REASON else SaysAborted(context))
  {
    hide RowSays, ReplanSays, FailureReason, ColonSaysAborted, Trim;
    AbortedText(context);
    var text := HEAD + context + BREAK + TRAILER;
    assert text == AbortedDeliverable(context);
    assert ABORT_REASON != [];
    WalkAll(text);
    ColonRow(context);
    match Find(context, FAILED_PAREN, 0)
    case None => TrailerRow(context);
    case Some(c) => ParenRow(context, c);
  }

  /** Contexts without a replan marker leave that verdict out. */
  lemma NoReplanSaysNothing(context: string)
    requires !Contains(context, REPLAN)
    ensures ReplanSays(AbortedDeliverable(context)) == []
  {
    NoReplanInAborted(context);
    hide AbortedDeliverable, Find;
  }

  lemma ExampleContext()
    ensures var context := "FAILED (x)";
            Find(context, FAILED_PAREN, 0) == Some(0) && FindChar(context[8..], ')', 0) == Some(1)
            && context[8..9] == "x" && Trim("x") == "x" && !Contains(context, REPLAN)
  {
    var context := "FAILED (x)";
    PrefixFacts();
    assert context[..8] == FAILED_PAREN;
    assert OccursAt(context, FAILED_PAREN, 0);
    assert context[8..] == "x)";
    TrimmedStays("x");
    forall i: nat ensures !OccursAt(context, REPLAN, i) { ForeignHeadDoesNotOccur(context, REPLAN, i); }
  }

  /** A context that spells another failure hands out that one's reason. */
  lemma AnotherReasonIsReadBack()
    ensures FailureReason(AbortedDeliverable("FAILED (x)")) == Some("x")
  {
    ExampleContext();
    var context := "FAILED (x)";
    AbortedText(context);
    hide RowSays, ReplanSays, FailureReason, Trim, Find, Contains, AbortedDeliverable;
    NoReplanSaysNothing(context);
    ParenRow(context, 0);
    WalkAll(AbortedDeliverable(context));
  }
}
