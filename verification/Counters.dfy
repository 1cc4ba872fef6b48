/** The marker vocabulary and the blanking of benign failure counters (src/markers.rs). */
module Counters {
  import opened Text
  import opened Patterns

  const COMPLETE: string := "MISSION COMPLETE"
  const FAILED: string := "FAILED"
  const REPLAN: string := "REPLAN REQUIRED"
  const REVOKED: string := "REVOKED"

  const TESTS_FAILED: string := "0 TESTS FAILED"
  const TEST_FAILED: string := "0 TEST FAILED"
  const ZERO_FAILED: string := "0 FAILED"

  /** Longest first. */
  const COUNTERS: seq<string> := [TESTS_FAILED, TEST_FAILED, ZERO_FAILED]

  // ----- How the patterns can overlap

  /** A counter starts with its only `0` and contains no `M` or `R`. */
  ghost predicate IsCounterShaped(c: string) {
    && |c| >= 8 && c[0] == '0' && !Has(c[1..], '0') && !Has(c, 'M') && !Has(c, 'R') && Solid(c)
    && c[|c| - 6..] == FAILED && !Has(c[..|c| - 6], 'F')
  }

  lemma TestsFailedIsShaped()
    ensures IsCounterShaped(TESTS_FAILED)
  {
    assert TESTS_FAILED[8..] == FAILED;
  }

  lemma TestFailedIsShaped()
    ensures IsCounterShaped(TEST_FAILED)
  {
    assert TEST_FAILED[7..] == FAILED;
  }

  lemma ZeroFailedIsShaped()
    ensures IsCounterShaped(ZERO_FAILED)
  {
    assert ZERO_FAILED[2..] == FAILED;
  }

  lemma CountersAreShaped()
    ensures |COUNTERS| == 3
    ensures forall n | 0 <= n < |COUNTERS| :: IsCounterShaped(COUNTERS[n])
  {
    hide IsCounterShaped;
    TestsFailedIsShaped();
    TestFailedIsShaped();
    ZeroFailedIsShaped();
  }

  /** At most one counter phrase fits at a position. */
  lemma CountersDiffer(s: string, i: nat, m: nat, n: nat)
    requires m < |COUNTERS| && n < |COUNTERS|
    requires OccursAt(s, COUNTERS[m], i) && OccursAt(s, COUNTERS[n], i)
    ensures m == n
  {
    var tests, test, zero := TESTS_FAILED, TEST_FAILED, ZERO_FAILED;
    assert tests[2] == 'T' && tests[6] == 'S' && test[2] == 'T' && test[6] == ' ' && zero[2] == 'F';
    var a, b := COUNTERS[m], COUNTERS[n];
    assert s[i + 2] == a[2] == b[2];
    if |a| > 8 && |b| > 8 {
      assert s[i + 6] == a[6] == b[6];
    }
  }

  lemma MarkerFacts()
    ensures |COMPLETE| == 16 && |FAILED| == 6 && |REPLAN| == 15 && |REVOKED| == 7
    ensures COMPLETE[0] == 'M' && FAILED[0] == 'F' && REPLAN[0] == 'R' && REVOKED[0] == 'R'
    ensures Solid(COMPLETE) && Solid(FAILED) && Solid(REPLAN)
    ensures !Has(COMPLETE, '0') && !Has(FAILED, '0') && !Has(REPLAN, '0') && !Has(REVOKED, '0')
    ensures !Has(COMPLETE, 'R') && !Has(FAILED, 'R') && !Has(FAILED, 'M') && !Has(REPLAN, 'M') && !Has(REVOKED, 'M')
    ensures !Has(COMPLETE, 'F') && !Has(REVOKED, 'F')
  {}

  lemma PatternsApart()
    ensures NoOverlap(FAILED, COMPLETE) && NoOverlap(REPLAN, COMPLETE)
    ensures NoOverlap(FAILED, REVOKED) && NoOverlap(COMPLETE, REVOKED)
  {
    MarkerFacts();
    ForeignHeadsDoNotOverlap(FAILED, COMPLETE);
    ForeignHeadsDoNotOverlap(REPLAN, COMPLETE);
    ForeignHeadsDoNotOverlap(FAILED, REVOKED);
    ForeignHeadsDoNotOverlap(COMPLETE, REVOKED);
  }

  /** `REVOKED` and `REPLAN REQUIRED` share letters but never line up. */
  lemma ReplanApartFromRevoked()
    ensures NoOverlap(REPLAN, REVOKED)
  {
    var a, b := REPLAN, REVOKED;
    assert a[0] == 'R' && a[1] == 'E' && a[2] == 'P' && a[3] == 'L' && a[4] == 'A' && a[5] == 'N' && a[6] == ' '
           && a[7] == 'R' && a[8] == 'E' && a[9] == 'Q' && a[10] == 'U' && a[11] == 'I' && a[12] == 'R'
           && a[13] == 'E' && a[14] == 'D';
    assert b[0] == 'R' && b[1] == 'E' && b[2] == 'V' && b[3] == 'O' && b[4] == 'K' && b[5] == 'E' && b[6] == 'D';
    forall d: int | -|b| < d < |a| ensures Clash(a, b, d) {
      var k: nat := if d < 0 then -d else if d == 0 || d == 7 || d == 12 then 2 else 0;
      assert a[k + d] != b[k];
    }
  }

  lemma CounterApart(c: string)
    requires IsCounterShaped(c)
    ensures NoOverlap(c, COMPLETE) && NoOverlap(c, REPLAN) && NoOverlap(c, REVOKED)
    ensures NoOverlap(COMPLETE, c) && NoOverlap(REPLAN, c)
  {
    MarkerFacts();
    ForeignHeadsDoNotOverlap(c, COMPLETE);
    ForeignHeadsDoNotOverlap(c, REPLAN);
    ForeignHeadsDoNotOverlap(c, REVOKED);
    ForeignHeadsDoNotOverlap(COMPLETE, c);
    ForeignHeadsDoNotOverlap(REPLAN, c);
  }

  lemma MarkersDoNotSelfOverlap()
    ensures NoSelfOverlap(COMPLETE) && NoSelfOverlap(FAILED) && NoSelfOverlap(REPLAN) && NoSelfOverlap(REVOKED)
  {
    UniqueHeadDoesNotSelfOverlap(FAILED);
    UniqueHeadDoesNotSelfOverlap(REVOKED);
    CompleteDoesNotSelfOverlap();
    ReplanDoesNotSelfOverlap();
  }

  lemma CompleteDoesNotSelfOverlap()
    ensures NoSelfOverlap(COMPLETE)
  {
    var a := COMPLETE;
    assert a[0] == 'M' && a[1] == 'I' && a[2] == 'S' && a[3] == 'S' && a[4] == 'I' && a[5] == 'O' && a[6] == 'N'
           && a[7] == ' ' && a[8] == 'C' && a[9] == 'O' && a[10] == 'M' && a[11] == 'P' && a[12] == 'L'
           && a[13] == 'E' && a[14] == 'T' && a[15] == 'E';
    forall d: int | 0 < d < |a| ensures Clash(a, a, d) {
      var k: nat := if d == 10 then 1 else 0;
      assert a[k + d] != a[k];
    }
  }

  lemma ReplanDoesNotSelfOverlap()
    ensures NoSelfOverlap(REPLAN)
  {
    var a := REPLAN;
    assert a[0] == 'R' && a[1] == 'E' && a[2] == 'P' && a[3] == 'L' && a[4] == 'A' && a[5] == 'N' && a[6] == ' '
           && a[7] == 'R' && a[8] == 'E' && a[9] == 'Q' && a[10] == 'U' && a[11] == 'I' && a[12] == 'R'
           && a[13] == 'E' && a[14] == 'D';
    forall d: int | 0 < d < |a| ensures Clash(a, a, d) {
      var k: nat := if d == 7 || d == 12 then 2 else 0;
      assert a[k + d] != a[k];
    }
  }

  // ----- Blanking

  /** Position `p` belongs to a counter phrase of `u`. */
  predicate Covered(u: string, p: nat) {
    exists i: nat, n: nat | i <= p && n < |COUNTERS| :: OccursAt(u, COUNTERS[n], i) && p < i + |COUNTERS[n]|
  }

  /** The text with every position of a counter phrase blanked, and no other. */
  function Blanked(u: string): (r: string)
    ensures |r| == |u| && forall p | 0 <= p < |u| :: r[p] == (if Covered(u, p) then ' ' else u[p])
  {
    seq(|u|, p requires 0 <= p < |u| => if Covered(u, p) then ' ' else u[p])
  }

  /** A phrase, by its place in the table, and where it starts. */
  datatype Phrase = Phrase(start: nat, index: nat)

  ghost predicate IsPhrase(u: string, b: Phrase) { b.index < |COUNTERS| && OccursAt(u, COUNTERS[b.index], b.start) }

  ghost predicate Spans(b: Phrase, p: nat) { b.index < |COUNTERS| && b.start <= p < b.start + |COUNTERS[b.index]| }

  /** `out` is `u` with exactly the phrases in `done` blanked. */
  ghost predicate IsBlankedBy(u: string, out: string, done: set<Phrase>) {
    && |out| == |u|
    && (forall b | b in done :: IsPhrase(u, b))
    && (forall b, p: nat | b in done && Spans(b, p) && p < |u| :: out[p] == ' ')
    && (forall p: nat | p < |u| && (forall b | b in done :: !Spans(b, p)) :: out[p] == u[p])
  }

  lemma PhrasesApart(u: string, a: Phrase, b: Phrase, p: nat)
    requires IsPhrase(u, a) && IsPhrase(u, b) && Spans(a, p) && Spans(b, p)
    ensures a == b
  {
    CountersAreShaped();
    var c, d := COUNTERS[a.index], COUNTERS[b.index];
    if a.start == b.start {
      CountersDiffer(u, a.start, a.index, b.index);
    } else {
      hide *;
      HeadsApart(u, a.start, c, b.start, d);
      HeadsApart(u, b.start, d, a.start, c);
    }
  }

  lemma ZeroOnlyAtHead(c: string, k: nat)
    requires IsCounterShaped(c) && 0 < k < |c|
    ensures c[k] != '0'
  {
    assert c[1..][k - 1] == c[k];
  }

  lemma CounterHead(c: string)
    requires IsCounterShaped(c)
    ensures |c| >= 8 && c[0] == '0' && Solid(c)
  {}

  lemma HeadsApart(u: string, i: nat, c: string, j: nat, d: string)
    requires IsCounterShaped(c) && IsCounterShaped(d) && OccursAt(u, c, i) && OccursAt(u, d, j)
    ensures i < j ==> i + |c| <= j
  {
    hide OccursAt, IsCounterShaped;
    CounterHead(d);
    CharAt(u, d, j, 0);
    if i < j < i + |c| {
      ZeroOnlyAtHead(c, j - i);
      CharAt(u, c, i, j - i);
    }
  }

  /** What a solid pattern can see of the blanking: it survives where no blanked phrase
      touches it, and blanking creates none. */
  lemma SolidSurvives(u: string, out: string, done: set<Phrase>, w: string, i: nat)
    requires IsBlankedBy(u, out, done) && Solid(w)
    ensures OccursAt(out, w, i) <==>
            OccursAt(u, w, i) && forall b, p: nat | b in done && Spans(b, p) :: !(i <= p < i + |w|)
  {
    hide Solid;
    if OccursAt(out, w, i) {
      forall b, p: nat | b in done && Spans(b, p) ensures !(i <= p < i + |w|) {
        CountersAreShaped();
        CounterHead(COUNTERS[b.index]);
        OccurrenceFits(u, COUNTERS[b.index], b.start);
        assert forall q: nat | b.start <= q < b.start + |COUNTERS[b.index]| :: Spans(b, q) && out[q] == ' ';
        BlankRunMissesSolid(out, b.start, |COUNTERS[b.index]|, w, i);
      }
    }
    if forall b, p: nat | b in done && Spans(b, p) :: !(i <= p < i + |w|) {
      assert forall p: nat | i <= p < i + |w| && p < |u| :: out[p] == u[p];
    }
  }

  lemma SolidEnds(w: string)
    requires Solid(w)
    ensures w != [] && w[0] != ' ' && w[|w| - 1] != ' '
  {}

  lemma SolidInside(w: string, k: nat)
    requires Solid(w) && k + 1 < |w|
    ensures w[k] != ' ' || w[k + 1] != ' '
  {}

  /** An occurrence of a solid pattern meets no run of two or more blanks. */
  lemma BlankRunMissesSolid(out: string, j: nat, n: nat, w: string, i: nat)
    requires n >= 2 && j + n <= |out| && Solid(w) && OccursAt(out, w, i)
    requires forall q: nat | j <= q < j + n :: out[q] == ' '
    ensures i + |w| <= j || j + n <= i
  {
    hide OccursAt, Solid;
    SolidEnds(w);
    CharAt(out, w, i, 0);
    CharAt(out, w, i, |w| - 1);
    assert !(j <= i < j + n) && !(j <= i + |w| - 1 < j + n);
    if i < j && j + n <= i + |w| - 1 {
      SolidInside(w, j - i);
      CharAt(out, w, i, j + 1 - i);
      CharAt(out, w, i, j - i);
    }
  }

  lemma PhraseSurvives(u: string, out: string, done: set<Phrase>, n: nat, i: nat)
    requires IsBlankedBy(u, out, done) && n < |COUNTERS|
    ensures OccursAt(out, COUNTERS[n], i) <==> OccursAt(u, COUNTERS[n], i) && Phrase(i, n) !in done
  {
    CountersAreShaped();
    SolidSurvives(u, out, done, COUNTERS[n], i);
    var me := Phrase(i, n);
    if OccursAt(u, COUNTERS[n], i) {
      assert Spans(me, i);
      forall b, p: nat | b in done && Spans(b, p) && i <= p < i + |COUNTERS[n]| ensures me in done {
        PhrasesApart(u, me, b, p);
      }
    }
  }

  // ----- The blanking loops against their specification

  function Spaces(n: nat): (r: string)
    ensures |r| == n && forall k | 0 <= k < n :: r[k] == ' '
  {
    seq(n, _ => ' ')
  }

  lemma BlankOne(u: string, out: string, done: set<Phrase>, b: Phrase, out': string)
    requires IsBlankedBy(u, out, done) && IsPhrase(u, b)
    requires var c := COUNTERS[b.index];
             b.start + |c| <= |out| && out' == out[..b.start] + Spaces(|c|) + out[b.start + |c|..]
    ensures IsBlankedBy(u, out', done + {b})
  {
    hide OccursAt;
    forall p: nat | p < |u| ensures out'[p] == if Spans(b, p) then ' ' else out[p] {}
  }

  /** Every phrase of a text. */
  ghost function AllPhrases(u: string): set<Phrase> {
    set i: nat, n: nat | i <= |u| && n < |COUNTERS| && OccursAt(u, COUNTERS[n], i) :: Phrase(i, n)
  }

  lemma AllPhrasesAreAll(u: string, b: Phrase)
    ensures IsPhrase(u, b) <==> b in AllPhrases(u)
  {
    if IsPhrase(u, b) {
      OccurrenceFits(u, COUNTERS[b.index], b.start);
      assert Phrase(b.start, b.index) in AllPhrases(u);
    }
  }

  lemma BlankingAllIsBlanked(u: string, out: string, done: set<Phrase>)
    requires IsBlankedBy(u, out, done) && forall b :: IsPhrase(u, b) ==> b in done
    ensures out == Blanked(u)
  {
    hide OccursAt;
    forall p: nat | p < |u| ensures out[p] == Blanked(u)[p] {
      if Covered(u, p) {
        var i: nat, n: nat :| i <= p && n < |COUNTERS| && OccursAt(u, COUNTERS[n], i) && p < i + |COUNTERS[n]|;
        assert IsPhrase(u, Phrase(i, n)) && Spans(Phrase(i, n), p);
      } else {
        forall b | b in done ensures !Spans(b, p) {
          assert IsPhrase(u, b);
        }
      }
    }
  }

  lemma BlankedIsBlankedBy(u: string)
    ensures IsBlankedBy(u, Blanked(u), AllPhrases(u))
  {
    hide OccursAt;
    forall b: Phrase ensures IsPhrase(u, b) <==> b in AllPhrases(u) { AllPhrasesAreAll(u, b); }
    forall b: Phrase, p: nat | b in AllPhrases(u) && Spans(b, p) && p < |u| ensures Covered(u, p) {
      assert OccursAt(u, COUNTERS[b.index], b.start);
    }
    forall p: nat | p < |u| && Covered(u, p) ensures exists b :: b in AllPhrases(u) && Spans(b, p) {
      var i: nat, n: nat :| i <= p && n < |COUNTERS| && OccursAt(u, COUNTERS[n], i) && p < i + |COUNTERS[n]|;
      assert IsPhrase(u, Phrase(i, n)) && Spans(Phrase(i, n), p);
    }
  }

  /** Blank the first match of each phrase until none is left, longest phrase first.
      Both loops end, and what they leave is the text with the phrases of the original
      blanked: no match is created or lost on the way. */
  method SanitizeFailureCounters(upper: string) returns (out: string)
    ensures out == Blanked(upper)
  {
    hide IsPhrase, IsBlankedBy, OccursAt, Blanked;
    CountersAreShaped();
    out := upper;
    ghost var done: set<Phrase> := {};
    assert IsBlankedBy(upper, out, done) by { NothingBlanked(upper); }
    for n := 0 to |COUNTERS|
      invariant IsBlankedBy(upper, out, done)
      invariant forall b :: IsPhrase(upper, b) && b.index < n ==> b in done
    {
      var phrase := COUNTERS[n];
      var pos := Find(out, phrase, 0);
      while pos.Some?
        invariant IsBlankedBy(upper, out, done) && pos == Find(out, phrase, 0)
        invariant forall b :: IsPhrase(upper, b) && b.index < n ==> b in done
        decreases AllPhrases(upper) - done
      {
        var p := pos.value;
        ghost var b := Phrase(p, n);
        PhraseSurvives(upper, out, done, n, p);
        OccurrenceFits(out, phrase, p);
        IsPhraseIntro(upper, b);
        AllPhrasesAreAll(upper, b);
        ghost var before := out;
        out := out[..p] + Spaces(|phrase|) + out[p + |phrase|..];
        BlankOne(upper, before, done, b, out);
        done := done + {b};
        pos := Find(out, phrase, 0);
      }
      forall b | IsPhrase(upper, b) && b.index == n ensures b in done {
        IsPhraseIntro(upper, b);
        PhraseSurvives(upper, out, done, n, b.start);
      }
    }
    IndexBounded(upper);
    BlankingAllIsBlanked(upper, out, done);
  }

  lemma NothingBlanked(u: string) ensures IsBlankedBy(u, u, {}) {}

  lemma IsPhraseIntro(u: string, b: Phrase)
    requires b.index < |COUNTERS|
    ensures IsPhrase(u, b) <==> OccursAt(u, COUNTERS[b.index], b.start)
  {}

  lemma IndexBounded(u: string)
    ensures forall b :: IsPhrase(u, b) ==> b.index < |COUNTERS|
  {}

  // ----- What blanking leaves of the markers

  /** Completion and replan markers are never touched. */
  lemma MarkersSurviveBlanking(u: string, w: string, i: nat)
    requires w == COMPLETE || w == REPLAN
    ensures OccursAt(Blanked(u), w, i) <==> OccursAt(u, w, i)
  {
    MarkerFacts();
    CountersAreShaped();
    BlankedIsBlankedBy(u);
    SolidSurvives(u, Blanked(u), AllPhrases(u), w, i);
    forall b, p: nat | b in AllPhrases(u) && Spans(b, p) && OccursAt(u, w, i) ensures !(i <= p < i + |w|) {
      AllPhrasesAreAll(u, b);
      CounterApart(COUNTERS[b.index]);
      OccurrencesApart(u, w, i, COUNTERS[b.index], b.start);
    }
  }

  /** The `FAILED` at `j` ends a counter phrase. */
  predicate BenignAt(u: string, j: nat) {
    exists n: nat | n < |COUNTERS| ::
      j + 6 >= |COUNTERS[n]| && OccursAt(u, COUNTERS[n], j + 6 - |COUNTERS[n]|)
  }

  /** A `FAILED` that is not the end of a benign counter. */
  predicate Standing(u: string, j: nat) { OccursAt(u, FAILED, j) && !BenignAt(u, j) }

  ghost predicate SomeStanding(u: string) { exists j: nat :: Standing(u, j) }

  lemma CounterTail(c: string)
    requires IsCounterShaped(c)
    ensures |c| >= 8
    ensures forall k: nat | k < |c| && c[k] == 'F' :: k == |c| - 6
  {
    FailedHeadIsUnique();
    var front, back := c[..|c| - 6], c[|c| - 6..];
    assert forall k: nat | k < |c| - 6 :: c[k] == front[k];
    assert forall k: nat | |c| - 6 <= k < |c| :: c[k] == back[k - (|c| - 6)];
  }

  lemma FailedHeadIsUnique()
    ensures |FAILED| == 6 && FAILED[0] == 'F' && forall e | 0 < e < |FAILED| :: FAILED[e] != 'F'
  {}

  lemma NoZeroInFailed(k: nat)
    requires k < |FAILED|
    ensures FAILED[k] != '0'
  {}

  /** A counter phrase that overlaps a `FAILED` ends with it. */
  lemma CounterEndsWithItsFailed(u: string, c: string, i: nat, j: nat, p: nat)
    requires IsCounterShaped(c) && OccursAt(u, c, i) && OccursAt(u, FAILED, j)
    requires i <= p < i + |c| && j <= p < j + 6
    ensures j + 6 == i + |c|
  {
    FailedHeadIsUnique();
    CounterTail(c);
    hide OccursAt, IsCounterShaped;
    if j < i {
      CounterHead(c);
      CharAt(u, c, i, 0);
      NoZeroInFailed(i - j);
      CharAt(u, FAILED, j, i - j);
    } else {
      CharAt(u, FAILED, j, 0);
      CharAt(u, c, i, j - i);
    }
  }

  /** Inside a counter phrase, a `FAILED` is benign. */
  lemma InsidePhraseIsBenign(u: string, b: Phrase, j: nat, p: nat)
    requires IsPhrase(u, b) && Spans(b, p) && OccursAt(u, FAILED, j) && j <= p < j + 6
    ensures BenignAt(u, j)
  {
    CountersAreShaped();
    hide OccursAt;
    CounterEndsWithItsFailed(u, COUNTERS[b.index], b.start, j, p);
    assert OccursAt(u, COUNTERS[b.index], j + 6 - |COUNTERS[b.index]|);
  }

  /** A benign `FAILED` lies inside a counter phrase. */
  lemma BenignIsInsidePhrase(u: string, j: nat) returns (b: Phrase)
    requires BenignAt(u, j)
    ensures IsPhrase(u, b) && Spans(b, j)
  {
    hide OccursAt, IsCounterShaped;
    CountersAreShaped();
    var n: nat :| n < |COUNTERS| && j + 6 >= |COUNTERS[n]| && OccursAt(u, COUNTERS[n], j + 6 - |COUNTERS[n]|);
    b := Phrase(j + 6 - |COUNTERS[n]|, n);
    CounterHead(COUNTERS[n]);
  }

  /** A `FAILED` is left standing exactly when it is not the end of a counter phrase. */
  lemma FailedSurvivesUnlessBenign(u: string, j: nat)
    ensures OccursAt(Blanked(u), FAILED, j) <==> Standing(u, j)
  {
    MarkerFacts();
    hide OccursAt, Blanked, IsPhrase, Spans, BenignAt, IsBlankedBy, AllPhrases;
    BlankedIsBlankedBy(u);
    SolidSurvives(u, Blanked(u), AllPhrases(u), FAILED, j);
    forall b, p: nat | b in AllPhrases(u) && Spans(b, p) && j <= p < j + 6 && OccursAt(u, FAILED, j)
      ensures BenignAt(u, j)
    {
      AllPhrasesAreAll(u, b);
      InsidePhraseIsBenign(u, b, j, p);
    }
    if BenignAt(u, j) {
      var b := BenignIsInsidePhrase(u, j);
      AllPhrasesAreAll(u, b);
    }
  }
}
