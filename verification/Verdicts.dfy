/** What a verdict may be relied on for: completions, bound task ids, and the failure
    trailers the program itself writes (src/markers.rs). */
module Verdicts {
  import opened Text
  import opened Patterns
  import opened Counters
  import opened TaskLines
  import opened IdSearch
  import opened Markers
  import opened MarkerParse

  /** A completion is reported exactly when nothing asks for a replan, no `FAILED` stands
      at the start of a line or in verdict shape, and either some non-negated completion
      is authoritative, or there is no standing `FAILED` at all and some non-negated
      completion anywhere. */
  lemma CompleteExactlyWhen(text: string, negation: string -> bool)
    ensures (Parse(text, negation).Some? && Parse(text, negation).value.Complete?) <==>
            && !HasReplan(text) && !HasHardFailed(text)
            && (HasAuthoritative(text, negation) || (!SomeStanding(Upper(text)) && HasMention(text, negation)))
  {
    ParseIsTheTable(text, negation);
    hide Parse, HasReplan, SomeStanding, HasMention;
    hide LineInitial, VerdictShaped, Standing, MentionAt, OnLastLine;
  }

  // ----- Bound task ids

  /** `id` is spelled at `text[i..j]`, on the line of the marker at `p` and behind it, as a
      token bounded on the left, and on the right unless the window ends there. */
  ghost predicate BoundAt(text: string, id: string, p: nat, i: nat, j: nat) {
    && p < i < j <= |text| && id == text[i..j] && IsTaskIdToken(id)
    && (forall k | p <= k < j :: text[k] != '\n')
    && !IsTokenChar(text[i - 1])
    && p + 16 <= |text| && j <= IdWindowEnd(text, p + 16)
    && (j < IdWindowEnd(text, p + 16) ==> !IsTokenChar(text[j]))
  }

  lemma CompleteHasNoNewline()
    ensures !Has(COMPLETE, '\n') && UpperChar('\n') == '\n'
  {}

  lemma MarkerLine(text: string, p: nat)
    requires OccursAt(Upper(text), COMPLETE, p)
    ensures p + 16 <= |text|
    ensures forall k | p <= k < IdWindowEnd(text, p + 16) :: text[k] != '\n'
    ensures text[p] == 'm' || text[p] == 'M'
  {
    MarkerFacts();
    CompleteHasNoNewline();
    forall k | p <= k < p + 16 ensures text[k] != '\n' {
      assert Upper(text)[p + (k - p)] == COMPLETE[k - p];
    }
    assert Upper(text)[p + 0] == COMPLETE[0];
  }

  lemma SliceOfSlice(s: string, p: nat, e: nat, i: nat, j: nat)
    requires i <= j && p <= e <= |s| && j <= e - p
    ensures s[p..e][i..j] == s[p + i..p + j]
  {
    var a, b := s[p..e][i..j], s[p + i..p + j];
    assert |a| == |b|;
    assert forall k | 0 <= k < |a| :: a[k] == b[k];
  }

  /** A token of a window, seen in the text around it. */
  lemma TokenInWindow(text: string, p: nat, e: nat, i: nat, j: nat)
    requires p < e <= |text| && IsToken(text[p..e], i, j) && text[p] != 't' && text[p] != 'T'
    ensures 0 < i < j <= e - p && text[p..e][i..j] == text[p + i..p + j]
    ensures IsTaskIdToken(text[p + i..p + j])
    ensures !IsTokenChar(text[p + i - 1]) && (p + j < e ==> !IsTokenChar(text[p + j]))
  {
    SliceOfSlice(text, p, e, i, j);
    var token := text[p + i..p + j];
    assert token[0] == text[p + i];
    assert i > 0 ==> text[p..e][i - 1] == text[p + i - 1];
    assert j < e - p ==> text[p..e][j] == text[p + j];
  }

  lemma BoundIdMeans(text: string, p: nat, id: string)
    requires OccursAt(Upper(text), COMPLETE, p) && p + 16 <= |text|
    requires FindTaskIdToken(text[p..IdWindowEnd(text, p + 16)]) == Some(id)
    ensures exists i: nat, j: nat :: BoundAt(text, id, p, i, j)
  {
    hide OccursAt, FindTaskIdToken, IdWindowEnd, IsTaskIdToken, IsTokenChar;
    MarkerLine(text, p);
    var e := IdWindowEnd(text, p + 16);
    FoundTokenIsFirst(text[p..e]);
    var i: nat, j: nat :| IsToken(text[p..e], i, j) && id == text[p..e][i..j];
    TokenInWindow(text, p, e, i, j);
    assert BoundAt(text, id, p, p + i, p + j);
  }

  lemma ListedMention(text: string, negation: string -> bool, o: Occurrence)
    requires Lists(text, negation, o) && IsMention(o)
    ensures MentionAt(text, negation, o.start) && o.end == o.start + 16 <= |text|
  {
    hide Hay, Lists, OccurrencesOf, OccursAt;
    MarkerFacts();
    ListedMeans(text, negation, o);
    HayTokens(text, o.start);
  }

  /** The id handed out with a completion is a token on a line that itself spells a
      completion marker which counts. */
  lemma BoundIdIsOnTheMarkerLine(text: string, negation: string -> bool, id: string)
    requires Parse(text, negation) == Some(Complete(Some(id)))
    ensures exists p: nat, i: nat, j: nat :: MentionAt(text, negation, p) && BoundAt(text, id, p, i, j)
  {
    var occs := OccurrencesOf(text, negation);
    hide Verdict, OccurrencesOf, IdWindowEnd, Hay, FindTaskIdToken, Window, BoundAt, OccursAt;
    var o := SourceOfId(text, occs, id);
    ListedMention(text, negation, o);
    BoundIdMeans(text, o.start, id);
  }

  lemma SourceOfId(text: string, occs: seq<Occurrence>, id: string) returns (o: Occurrence)
    requires Verdict(text, occs) == Some(Complete(Some(id)))
    ensures o in occs && IsMention(o) && BoundTaskId(text, o) == Some(id)
  {
    hide BoundTaskId, IsHardFailure;
    var authoritative, mentions := Select(occs, IsAuthoritative), Select(occs, IsMention);
    var candidates := if authoritative != [] then authoritative else mentions;
    var first := if authoritative != [] then Best(authoritative) else mentions[0];
    assert first in candidates;
    if BoundTaskId(text, first).Some? {
      o := first;
    } else {
      assert FirstBoundTaskId(text, candidates) == Some(id);
      o :| o in candidates && BoundTaskId(text, o) == Some(id);
    }
  }

  // ----- Failure trailers

  const ABORT_REASON: string := "aborted"

  function FailedTrailer(context: string): string { FAILED + [' ', '('] + context + [')'] }

  function AbortedDeliverable(context: string): string {
    ['T', 'a', 's', 'k', ' '] + context + ['.', '\n', '\n'] + FailedTrailer(ABORT_REASON)
  }

  lemma CountersEndBehindABlank()
    ensures forall n | 0 <= n < |COUNTERS| :: |COUNTERS[n]| >= 8 && COUNTERS[n][|COUNTERS[n]| - 7] == ' '
  {
    assert COUNTERS[0] == TESTS_FAILED && COUNTERS[1] == TEST_FAILED && COUNTERS[2] == ZERO_FAILED;
  }

  /** A `FAILED` right behind a newline, or at the start of the text, is never benign. */
  lemma FreshFailedStands(text: string, j: nat)
    requires OccursAt(Upper(text), FAILED, j) && (j == 0 || text[j - 1] == '\n')
    ensures Standing(Upper(text), j) && j + 6 <= |text| && LineInitial(Hay(text), j)
  {
    hide OccursAt, BenignAt, Hay, LineInitial;
    MarkerFacts();
    OccurrenceFits(Upper(text), FAILED, j);
    FreshIsNotBenign(Upper(text), j);
    HayKeepsNewlines(text);
    FreshIsInitial(Hay(text), j);
  }

  lemma FreshIsNotBenign(u: string, j: nat)
    requires j <= |u| && (j == 0 || u[j - 1] == '\n')
    ensures !BenignAt(u, j)
  {
    CountersEndBehindABlank();
    forall n: nat | n < |COUNTERS| && j + 6 >= |COUNTERS[n]|
      ensures !OccursAt(u, COUNTERS[n], j + 6 - |COUNTERS[n]|)
    {
      CounterNeedsABlank(u, COUNTERS[n], j);
    }
  }

  lemma CounterNeedsABlank(u: string, c: string, j: nat)
    requires |c| >= 8 && c[|c| - 7] == ' ' && j + 6 >= |c| && 0 < j <= |u| && u[j - 1] == '\n'
    ensures !OccursAt(u, c, j + 6 - |c|)
  {
    var i := j + 6 - |c|;
    assert u[i + (|c| - 7)] == '\n';
  }

  lemma FreshIsInitial(hay: string, j: nat)
    requires j <= |hay| && (j == 0 || hay[j - 1] == '\n')
    ensures LineInitial(hay, j)
  {
    assert RunStartsAt(IsNotNewline, hay, j, j);
    assert hay[j..j] == [];
  }

  lemma FailedIsItsOwnUpper()
    ensures Upper(FAILED) == FAILED
  {}

  lemma TrailerOccurs(pre: string, context: string)
    ensures OccursAt(Upper(pre + FailedTrailer(context)), FAILED, |pre|)
  {
    FailedIsItsOwnUpper();
    var text := pre + FailedTrailer(context);
    assert forall k | 0 <= k < 6 :: text[|pre| + k] == FAILED[k] && Upper(FAILED)[k] == FAILED[k];
  }

  /** A failure trailer on its own line always wins: the verdict is a failure, never a
      completion, whatever the body above it says. */
  lemma FailureTrailerWins(body: string, context: string, negation: string -> bool)
    requires body == [] || body[|body| - 1] == '\n'
    ensures var text := body + FailedTrailer(context);
            Parse(text, negation) == Some(if HasReplan(text) then Replan(text) else Failed(text))
  {
    var text := body + FailedTrailer(context);
    TrailerOccurs(body, context);
    assert body != [] ==> text[|body| - 1] == body[|body| - 1];
    FreshFailedStands(text, |body|);
    assert HardFailedAt(text, |body|);
    ParseIsTheTable(text, negation);
    hide Parse, HasReplan, HasHardFailed, HasAuthoritative, SomeStanding, HasMention, FailedTrailer;
  }

  lemma AbortedDeliverableFails(context: string, negation: string -> bool)
    ensures var text := AbortedDeliverable(context);
            Parse(text, negation) == Some(if HasReplan(text) then Replan(text) else Failed(text))
  {
    var body := ['T', 'a', 's', 'k', ' '] + context + ['.', '\n', '\n'];
    assert body[|body| - 1] == '\n';
    FailureTrailerWins(body, ABORT_REASON, negation);
  }

  // ----- Failure clauses

  /** A standing `FAILED` followed by a colon or a bracket decides, wherever it stands. */
  lemma ShapedFailureWins(text: string, negation: string -> bool, j: nat, q: nat)
    requires Standing(Upper(text), j) && ShapeAt(Hay(text), j + 6, q)
    ensures Parse(text, negation) == Some(if HasReplan(text) then Replan(text) else Failed(text))
  {
    hide Standing, ShapeAt, LineInitial, Hay, Parse, HasReplan, HasAuthoritative, SomeStanding, HasMention;
    ShapeIsBehind(Hay(text), j + 6, q);
    assert HardFailedAt(text, j);
    ParseIsTheTable(text, negation);
  }

  lemma ShapeIsBehind(hay: string, from: nat, q: nat)
    requires ShapeAt(hay, from, q)
    ensures from <= |hay|
  {}

  lemma NoMarkInCounters()
    ensures forall n | 0 <= n < |COUNTERS| :: !Has(COUNTERS[n], ':') && !Has(COUNTERS[n], '(')
  {
    assert COUNTERS[0] == TESTS_FAILED && COUNTERS[1] == TEST_FAILED && COUNTERS[2] == ZERO_FAILED;
  }

  /** Neither blanking nor folding touches a colon, a bracket or a blank. */
  lemma HayKeepsShapes(text: string, p: nat)
    requires p < |text|
    ensures IsWhitespace(text[p]) ==> IsWhitespace(Hay(text)[p])
    ensures text[p] == ':' || text[p] == '(' ==> Hay(text)[p] == text[p]
  {
    var u := Upper(text);
    forall i: nat, n: nat | i <= p && n < |COUNTERS| && OccursAt(u, COUNTERS[n], i) && p < i + |COUNTERS[n]|
      ensures Has(COUNTERS[n], u[p])
    {
      CharAt(u, COUNTERS[n], i, p - i);
    }
    hide OccursAt, Has;
    NoMarkInCounters();
  }

  predicate EndsIn(s: string, w: string) { |w| <= |s| && s[|s| - |w|..] == w }

  /** `front` ends in what a benign counter has before its `FAILED`. */
  predicate CountsZero(front: string) {
    var u := Upper(front);
    EndsIn(u, "0 ") || EndsIn(u, "0 TEST ") || EndsIn(u, "0 TESTS ")
  }

  function FailureClause(front: string, word: string, gap: string, mark: char, rest: string): string {
    front + word + gap + [mark] + rest
  }

  lemma CounterBefore(text: string, front: string, c: string, head: string)
    requires front <= text && |front| + 6 <= |text| && OccursAt(Upper(text), FAILED, |front|) && c == head + FAILED
    ensures |front| + 6 >= |c| && OccursAt(Upper(text), c, |front| + 6 - |c|) <==> EndsIn(Upper(front), head)
  {
    MarkerFacts();
    var u, f := Upper(text), Upper(front);
    assert forall k | 0 <= k < |front| :: u[k] == f[k];
    if |head| <= |front| {
      var at := |front| - |head|;
      assert |front| + 6 - |c| == at;
      if EndsIn(f, head) {
        forall k | 0 <= k < |c| ensures u[at + k] == c[k] {
          if k < |head| {
            assert f[at..][k] == f[at + k];
          } else {
            assert u[|front| + (k - |head|)] == FAILED[k - |head|];
          }
        }
      }
      if OccursAt(u, c, at) {
        forall k | 0 <= k < |head| ensures f[at..][k] == head[k] { assert u[at + k] == c[k]; }
        assert f[at..] == head;
      }
    }
  }

  lemma CounterHeads()
    ensures COUNTERS[0] == "0 TESTS " + FAILED && COUNTERS[1] == "0 TEST " + FAILED && COUNTERS[2] == "0 " + FAILED
    ensures |COUNTERS| == 3
  {}

  lemma ClauseOccurs(front: string, word: string, gap: string, mark: char, rest: string)
    requires Upper(word) == FAILED
    ensures var text := FailureClause(front, word, gap, mark, rest);
            OccursAt(Upper(text), FAILED, |front|) && front <= text && |front| + 6 <= |text|
  {
    MarkerFacts();
    var text := FailureClause(front, word, gap, mark, rest);
    assert |word| == 6;
    assert forall k | 0 <= k < 6 :: text[|front| + k] == word[k] && Upper(word)[k] == FAILED[k];
  }

  /** The word of a failure clause stands exactly when the text in front of it does not count
      zero failures. */
  lemma ClauseStandsExactly(front: string, word: string, gap: string, mark: char, rest: string)
    requires Upper(word) == FAILED
    ensures Standing(Upper(FailureClause(front, word, gap, mark, rest)), |front|) <==> !CountsZero(front)
  {
    var text := FailureClause(front, word, gap, mark, rest);
    ClauseOccurs(front, word, gap, mark, rest);
    hide FailureClause, OccursAt, EndsIn, Upper;
    CounterHeads();
    CounterBefore(text, front, COUNTERS[0], "0 TESTS ");
    CounterBefore(text, front, COUNTERS[1], "0 TEST ");
    CounterBefore(text, front, COUNTERS[2], "0 ");
  }

  /** `FAILED: ...` and `FAILED (...)`, in any casing and spacing and anywhere in a text, are a
      failure unless they count zero failures: whatever else the text says, it is no completion. */
  lemma FailureClauseWins(
      front: string, word: string, gap: string, mark: char, rest: string, negation: string -> bool)
    requires Upper(word) == FAILED && All(IsWhitespace, gap) && (mark == ':' || mark == '(')
    requires !CountsZero(front)
    ensures var text := FailureClause(front, word, gap, mark, rest);
            Parse(text, negation) == Some(if HasReplan(text) then Replan(text) else Failed(text))
  {
    var text := FailureClause(front, word, gap, mark, rest);
    var j, q := |front|, |front| + 6 + |gap|;
    ClauseStandsExactly(front, word, gap, mark, rest);
    assert |word| == 6 by { MarkerFacts(); }
    assert text[q] == mark;
    forall k | j + 6 <= k < q ensures IsWhitespace(Hay(text)[k]) {
      assert text[k] == gap[k - j - 6];
      HayKeepsShapes(text, k);
    }
    HayKeepsShapes(text, q);
    assert ShapeAt(Hay(text), j + 6, q);
    hide *;
    ShapedFailureWins(text, negation, j, q);
  }
}
