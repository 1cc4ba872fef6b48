/** Recovering the reason clause of a failure verdict (src/markers.rs). */
module FailureReasons {
  import opened Text
  import opened Patterns
  import opened Counters
  import opened Lines
  import opened Verdicts

  datatype ReasonShape = Parenthesis | ColonLine | OptionalParenThenColonLine

  datatype FailureVerdict = FailureVerdict(prefix: string, shape: ReasonShape)

  const FAILED_PAREN: string := FAILED + [' ', '(']
  const FAILED_COLON: string := FAILED + [':']

  /** In precedence order. */
  const FAILURE_VERDICTS: seq<FailureVerdict> := [
    FailureVerdict(REPLAN, OptionalParenThenColonLine),
    FailureVerdict(FAILED_PAREN, Parenthesis),
    FailureVerdict(FAILED_COLON, ColonLine)
  ]

  function FirstNonBlank(lines: seq<string>): string {
    if lines == [] then [] else if Trim(lines[0]) != [] then lines[0] else FirstNonBlank(lines[1..])
  }

  function FirstNonEmptyLine(text: string): string { FirstNonBlank(LinesOf(text)) }

  function SkipParen(after: string): string {
    if after != [] && after[0] == '(' then
      match FindChar(after, ')', 0)
      case Some(close) => after[close + 1..]
      case None => after
    else after
  }

  function SkipColon(after: string): string { if after != [] && after[0] == ':' then after[1..] else after }

  /** The clause behind a prefix, before trimming. */
  function Clause(shape: ReasonShape, after: string): Option<string> {
    match shape
    case Parenthesis =>
      (match FindChar(after, ')', 0)
       case Some(close) => Some(after[..close])
       case None => None)
    case ColonLine => Some(FirstNonEmptyLine(after))
    case OptionalParenThenColonLine => Some(FirstNonEmptyLine(SkipColon(SkipParen(TrimStart(after)))))
  }

  function ReasonFrom(text: string, verdicts: seq<FailureVerdict>): Option<string> {
    if verdicts == [] then None
    else
      var v := verdicts[0];
      var pos := Find(text, v.prefix, 0);
      var clause := if pos.None? then None else Clause(v.shape, text[pos.value + |v.prefix|..]);
      if clause.Some? && Trim(clause.value) != [] then Some(Trim(clause.value))
      else ReasonFrom(text, verdicts[1..])
  }

  function FailureReason(text: string): Option<string> { ReasonFrom(text, FAILURE_VERDICTS) }

  const HEAD: string := ['T', 'a', 's', 'k', ' ']
  const BREAK: string := ['.', '\n', '\n']

  lemma PrefixFacts()
    ensures |FAILED_PAREN| == 8 && FAILED_PAREN[0] == 'F' && FAILED_PAREN[7] == '(' && !Has(FAILED_PAREN, '.')
    ensures !Has(FAILED_PAREN[1..], 'F')
    ensures !Has(REPLAN, '.') && |REPLAN| == 15 && REPLAN[0] == 'R'
    ensures !Has(HEAD, 'F') && !Has(HEAD, 'R') && !Has(BREAK, 'F') && !Has(BREAK, 'R')
    ensures !Has(FAILED_PAREN + ABORT_REASON + [')'], 'R')
    ensures !Has(ABORT_REASON, 'F') && !Has(ABORT_REASON, ')') && |ABORT_REASON| == 7
    ensures Trimmed(IsWhitespace, ABORT_REASON)
  {}

  lemma CharOfPart(s: string, part: string, at: nat, k: nat, c: char)
    requires at + |part| <= |s| && s[at..at + |part|] == part && k < |part| && !Has(part, c)
    ensures s[at + k] != c
  {
    assert s[at + k] == s[at..at + |part|][k];
  }

  lemma HeadNotIn(s: string, w: string, i: nat, part: string, at: nat)
    requires w != [] && OccursAt(s, w, i) && !Has(part, w[0])
    requires at + |part| <= |s| && s[at..at + |part|] == part
    ensures i < at || at + |part| <= i
  {
    hide Has, OccursAt;
    CharAt(s, w, i, 0);
    if at <= i < at + |part| { CharOfPart(s, part, at, i - at, w[0]); }
  }

  lemma StaysBefore(s: string, w: string, i: nat, c: char, at: nat)
    requires OccursAt(s, w, i) && !Has(w, c) && at < |s| && s[at] == c
    ensures i + |w| <= at || at < i
  {
    hide OccursAt;
    if i <= at < i + |w| { CharAt(s, w, i, at - i); }
  }

  /** A pattern that starts with a letter foreign to the frame of an aborted deliverable,
      and holds no full stop, occurs before the trailer only inside the context. */
  lemma OnlyInContext(context: string, tail: string, w: string, i: nat)
    requires w != [] && !Has(HEAD, w[0]) && !Has(BREAK, w[0]) && !Has(w, '.')
    requires OccursAt(HEAD + context + BREAK + tail, w, i) && i < |HEAD + context + BREAK|
    ensures |HEAD| <= i && OccursAt(context, w, i - |HEAD|) && Contains(context, w)
  {
    var text := HEAD + context + BREAK + tail;
    var h, n := |HEAD|, |context|;
    assert text[0..0 + h] == HEAD && text[h + n..h + n + |BREAK|] == BREAK && text[h + n] == '.';
    hide OccursAt, Has;
    HeadNotIn(text, w, i, HEAD, 0);
    HeadNotIn(text, w, i, BREAK, h + n);
    StaysBefore(text, w, i, '.', h + n);
    assert h <= i && i + |w| <= h + n;
    OccurrenceInSuffix(text, h, w, i - h);
    OccurrenceInPrefix(text[h..], n, w, i - h);
    assert text[h..][..n] == context;
    OccurrenceFits(context, w, i - h);
  }

  lemma AbortedText(context: string)
    ensures AbortedDeliverable(context) == HEAD + context + BREAK + (FAILED_PAREN + ABORT_REASON + [')'])
  {
    assert FailedTrailer(ABORT_REASON) == FAILED_PAREN + ABORT_REASON + [')'];
    hide FailedTrailer;
  }

  lemma NoReplanInAborted(context: string)
    requires !Contains(context, REPLAN)
    ensures Find(AbortedDeliverable(context), REPLAN, 0) == None
  {
    PrefixFacts();
    AbortedText(context);
    var tail := FAILED_PAREN + ABORT_REASON + [')'];
    var front := HEAD + context + BREAK;
    var text := front + tail;
    var w := REPLAN;
    hide AbortedDeliverable;
    forall i: nat ensures !OccursAt(text, w, i) {
      if i < |front| {
        if OccursAt(text, w, i) { OnlyInContext(context, tail, w, i); }
      } else if i < |text| {
        assert text[i] == tail[i - |front|];
        assert text[i + 0] != w[0];
      }
    }
  }

  lemma PrefixFoundAtTrailer(context: string)
    requires !Contains(context, FAILED_PAREN)
    ensures Find(AbortedDeliverable(context), FAILED_PAREN, 0) == Some(|HEAD + context + BREAK|)
  {
    hide AbortedDeliverable, Contains, OccursAt, Has;
    PrefixFacts();
    AbortedText(context);
    var w, rest := FAILED_PAREN, ABORT_REASON + [')'];
    var front := HEAD + context + BREAK;
    var text := front + (w + rest);
    assert FAILED_PAREN + ABORT_REASON + [')'] == w + rest;
    OccursBehind(front, w, rest);
    forall i: nat | i < |front| ensures !OccursAt(text, w, i) {
      if OccursAt(text, w, i) { OnlyInContext(context, w + rest, w, i); }
    }
  }

  lemma OccursBehind(front: string, w: string, rest: string)
    ensures OccursAt(front + (w + rest), w, |front|)
  {}

  lemma BracketClause(after: string, reason: string)
    requires reason + [')'] <= after && !Has(reason, ')')
    ensures Clause(Parenthesis, after) == Some(reason)
  {
    assert after[|reason|] == ')';
    assert forall k | 0 <= k < |reason| :: after[k] == reason[k];
    assert FindChar(after, ')', 0) == Some(|reason|);
    assert after[..|reason|] == reason;
  }

  /** The walk over the table passes over a verdict that is not in the text, and stops at
      the first one whose clause is not blank. */
  lemma WalkSkips(text: string, v: FailureVerdict, rest: seq<FailureVerdict>)
    requires Find(text, v.prefix, 0) == None
    ensures ReasonFrom(text, [v] + rest) == ReasonFrom(text, rest)
  {
    hide Clause, Trim;
    assert ([v] + rest)[1..] == rest;
  }

  lemma WalkStops(text: string, v: FailureVerdict, rest: seq<FailureVerdict>, t: nat, clause: string)
    requires Find(text, v.prefix, 0) == Some(t) && t + |v.prefix| <= |text|
    requires Clause(v.shape, text[t + |v.prefix|..]) == Some(clause) && Trim(clause) != []
    ensures ReasonFrom(text, [v] + rest) == Some(Trim(clause))
  {
    hide Clause, Trim, Find;
  }

  lemma TableWalk(text: string)
    ensures FailureReason(text) ==
            ReasonFrom(text, [FailureVerdict(REPLAN, OptionalParenThenColonLine)]
              + ([FailureVerdict(FAILED_PAREN, Parenthesis)] + [FailureVerdict(FAILED_COLON, ColonLine)]))
  {
    hide ReasonFrom;
    assert FAILURE_VERDICTS == [FailureVerdict(REPLAN, OptionalParenThenColonLine)]
              + ([FailureVerdict(FAILED_PAREN, Parenthesis)] + [FailureVerdict(FAILED_COLON, ColonLine)]);
  }

  /** With no replan verdict and `FAILED (` at `t`, the reason is the bracketed clause. */
  lemma BracketedReason(text: string, t: nat, reason: string)
    requires Find(text, REPLAN, 0) == None && Find(text, FAILED_PAREN, 0) == Some(t)
    requires t + |FAILED_PAREN| <= |text| && reason != [] && Trimmed(IsWhitespace, reason) && !Has(reason, ')')
    requires reason + [')'] <= text[t + |FAILED_PAREN|..]
    ensures FailureReason(text) == Some(reason)
  {
    hide *;
    BracketClause(text[t + |FAILED_PAREN|..], reason);
    TrimmedStays(reason);
    var second, third := FailureVerdict(FAILED_PAREN, Parenthesis), [FailureVerdict(FAILED_COLON, ColonLine)];
    TableWalk(text);
    WalkSkips(text, FailureVerdict(REPLAN, OptionalParenThenColonLine), [second] + third);
    WalkStops(text, second, third, t, reason);
  }

  /** The reason of an aborted deliverable is recovered from its text. */
  lemma AbortReasonIsRecovered(context: string)
    requires !Contains(context, REPLAN) && !Contains(context, FAILED_PAREN)
    ensures FailureReason(AbortedDeliverable(context)) == Some(ABORT_REASON)
  {
    NoReplanInAborted(context);
    PrefixFoundAtTrailer(context);
    AbortedText(context);
    PrefixFacts();
    hide AbortedDeliverable, FailureReason;
    var text, t := AbortedDeliverable(context), |HEAD + context + BREAK|;
    assert text[t + 8..] == ABORT_REASON + [')'];
    BracketedReason(text, t, ABORT_REASON);
  }
}
