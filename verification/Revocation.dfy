/** Revoking completions: the rewrite, what it keeps, and the verdict it leaves behind
    (src/markers.rs). */
module Revocation {
  import opened Text
  import opened Patterns
  import opened Counters
  import opened Markers
  import opened MarkerParse

  /** Every completion marker, in any casing, replaced from left to right. */
  function Revoked(text: string): string
    decreases |text|
  {
    match Find(Upper(text), COMPLETE, 0)
    case None => text
    case Some(p) =>
      OccurrenceFits(Upper(text), COMPLETE, p);
      text[..p] + REVOKED + Revoked(text[p + |COMPLETE|..])
  }

  lemma FindIs(s: string, w: string, from: nat, r: Option<nat>)
    requires from <= |s|
    requires r.Some? ==> from <= r.value && OccursAt(s, w, r.value)
                         && forall i: nat | from <= i < r.value :: !OccursAt(s, w, i)
    requires r.None? ==> forall i: nat | from <= i :: !OccursAt(s, w, i)
    ensures Find(s, w, from) == r
  {
    hide OccursAt;
  }

  lemma FindInSuffix(s: string, w: string, from: nat)
    requires from <= |s|
    ensures Find(s, w, from) == match Find(s[from..], w, 0)
                                case None => None
                                case Some(p) => Some(p + from)
  {
    hide OccursAt;
    var t := s[from..];
    forall i: nat | from <= i ensures OccursAt(s, w, i) <==> OccursAt(t, w, i - from) {
      OccurrenceInSuffix(s, from, w, i - from);
    }
    var r := match Find(t, w, 0)
             case None => None
             case Some(p) => Some(p + from);
    FindIs(s, w, from, r);
  }

  lemma RevokedUnfolds(text: string)
    ensures match Find(Upper(text), COMPLETE, 0)
            case None => Revoked(text) == text
            case Some(p) => p + |COMPLETE| <= |text|
                            && Revoked(text) == text[..p] + REVOKED + Revoked(text[p + |COMPLETE|..])
  {
    hide OccursAt;
    var r := Find(Upper(text), COMPLETE, 0);
    if r.Some? { OccurrenceFits(Upper(text), COMPLETE, r.value); }
  }

  lemma SplitSlices(text: string, from: nat, p: nat, n: nat)
    requires from <= p && p + n <= |text|
    ensures text[from..][..p - from] == text[from..p] && text[from..][p - from + n..] == text[p + n..]
  {}

  /** One step of the rewrite, seen in the whole text. */
  lemma RevokedStep(text: string, from: nat)
    requires from <= |text|
    ensures match Find(Upper(text), COMPLETE, from)
            case None => Revoked(text[from..]) == text[from..]
            case Some(p) => from <= p && p + |COMPLETE| <= |text|
                            && Revoked(text[from..]) == text[from..p] + REVOKED + Revoked(text[p + |COMPLETE|..])
  {
    hide OccursAt, Find, Revoked, Upper;
    UpperSlice(text, from, |text|);
    assert text[from..|text|] == text[from..] && Upper(text)[from..|text|] == Upper(text)[from..];
    FindInSuffix(Upper(text), COMPLETE, from);
    RevokedUnfolds(text[from..]);
    var r := Find(Upper(text), COMPLETE, from);
    if r.Some? {
      OccurrenceFits(Upper(text), COMPLETE, r.value);
      SplitSlices(text, from, r.value, |COMPLETE|);
    }
  }

  /** Where the scan resumes after the first `k` matches. */
  function Resume(ps: seq<nat>, k: nat): nat
    requires k <= |ps|
  {
    if k == 0 then 0 else ps[k - 1] + |COMPLETE|
  }

  lemma {:induction false} ResumeScan(s: string, k: nat)
    requires k <= |FindAll(s, COMPLETE, 0)|
    ensures var ps := FindAll(s, COMPLETE, 0);
            && Resume(ps, k) <= |s| && FindAll(s, COMPLETE, Resume(ps, k)) == ps[k..]
            && Find(s, COMPLETE, Resume(ps, k)) == if k < |ps| then Some(ps[k]) else None
  {
    hide OccursAt;
    MarkerFacts();
    if k > 0 {
      ResumeScan(s, k - 1);
      var ps := FindAll(s, COMPLETE, 0);
      OccurrenceFits(s, COMPLETE, ps[k - 1]);
      assert ps[k - 1..][1..] == ps[k..];
    }
  }

  /** The program splices from the last match to the first, so that earlier offsets stay
      valid; the result is the left-to-right replacement. */
  method RevokeCompletion(text: string) returns (out: string)
    ensures out == Revoked(text)
  {
    hide Revoked, OccursAt, Find, FindAll;
    MarkerFacts();
    var upper := Upper(text);
    var ps := FindAllLoop(upper, COMPLETE);
    out := text;
    var k := |ps|;
    ResumeScan(upper, k);
    RevokedStep(text, Resume(ps, k));
    while k > 0
      invariant 0 <= k <= |ps| && Resume(ps, k) <= |text|
      invariant out == text[..Resume(ps, k)] + Revoked(text[Resume(ps, k)..])
    {
      ResumeScan(upper, k - 1);
      RevokedStep(text, Resume(ps, k - 1));
      k := k - 1;
      var start := ps[k];
      out := out[..start] + REVOKED + out[start + |COMPLETE|..];
    }
  }

  // ----- What the rewrite keeps, and what it removes

  /** The pieces of a text around its first completion marker, upper-cased. */
  lemma UpperAroundMarker(text: string, p: nat)
    requires Find(Upper(text), COMPLETE, 0) == Some(p)
    ensures p + |COMPLETE| <= |text|
    ensures Upper(text) == Upper(text[..p]) + COMPLETE + Upper(text[p + |COMPLETE|..])
    ensures !Contains(Upper(text[..p]), COMPLETE)
  {
    hide OccursAt, Find, Upper;
    var u := Upper(text);
    OccurrenceIsSlice(u, COMPLETE, p);
    var e := p + |COMPLETE|;
    assert u == u[..p] + u[p..e] + u[e..];
    UpperSlice(text, 0, p);
    UpperSlice(text, e, |text|);
    assert text[0..p] == text[..p] && u[0..p] == u[..p] && text[e..|text|] == text[e..] && u[e..|text|] == u[e..];
    forall i: nat ensures !OccursAt(u[..p], COMPLETE, i) {
      OccurrenceInPrefix(u, p, COMPLETE, i);
    }
  }

  lemma RevokedIsItsOwnUpper()
    ensures Upper(REVOKED) == REVOKED
  {}

  /** The pieces of the rewritten text, upper-cased. */
  lemma UpperAroundRevoked(text: string, p: nat)
    requires Find(Upper(text), COMPLETE, 0) == Some(p) && p + |COMPLETE| <= |text|
    ensures Upper(Revoked(text)) == Upper(text[..p]) + REVOKED + Upper(Revoked(text[p + |COMPLETE|..]))
  {
    RevokedIsItsOwnUpper();
    UpperConcat(text[..p] + REVOKED, Revoked(text[p + |COMPLETE|..]));
    UpperConcat(text[..p], REVOKED);
  }

  /** Of a pattern that can overlap neither the marker nor its replacement, the rewrite keeps
      every occurrence and adds none. */
  lemma {:induction false} RewriteKeeps(text: string, w: string)
    requires NoOverlap(w, COMPLETE) && NoOverlap(w, REVOKED) && w != []
    ensures Contains(Upper(Revoked(text)), w) <==> Contains(Upper(text), w)
    ensures OccurrenceCount(Upper(Revoked(text)), w) == OccurrenceCount(Upper(text), w)
    decreases |text|
  {
    hide Contains, NoOverlap, Find, OccurrenceCount;
    var r := Find(Upper(text), COMPLETE, 0);
    if r.Some? {
      var p := r.value;
      UpperAroundMarker(text, p);
      UpperAroundRevoked(text, p);
      var rest := text[p + |COMPLETE|..];
      MarkerFacts();
      RewriteKeeps(rest, w);
      SpliceContains(Upper(text[..p]), COMPLETE, Upper(rest), w);
      SpliceContains(Upper(text[..p]), REVOKED, Upper(Revoked(rest)), w);
      SpliceCount(Upper(text[..p]), COMPLETE, Upper(rest), w);
      SpliceCount(Upper(text[..p]), REVOKED, Upper(Revoked(rest)), w);
    }
  }

  lemma ReplanKept(text: string)
    ensures HasReplan(Revoked(text)) <==> HasReplan(text)
    ensures OccurrenceCount(Upper(Revoked(text)), REPLAN) == OccurrenceCount(Upper(text), REPLAN)
  {
    PatternsApart();
    ReplanApartFromRevoked();
    MarkerFacts();
    hide Revoked, NoOverlap, Contains, OccurrenceCount;
    RewriteKeeps(text, REPLAN);
  }

  /** No completion marker is left, in any casing. */
  lemma {:induction false} NoCompletionLeft(text: string)
    ensures !Contains(Upper(Revoked(text)), COMPLETE)
    decreases |text|
  {
    hide NoOverlap, Find, OccursAt;
    PatternsApart();
    MarkerFacts();
    var r := Find(Upper(text), COMPLETE, 0);
    if r.Some? {
      var p := r.value;
      UpperAroundMarker(text, p);
      UpperAroundRevoked(text, p);
      var rest := text[p + |COMPLETE|..];
      NoCompletionLeft(rest);
      SpliceContains(Upper(text[..p]), REVOKED, Upper(Revoked(rest)), COMPLETE);
    }
  }

  lemma RevocationIsIdempotent(text: string)
    ensures Revoked(Revoked(text)) == Revoked(text)
  {
    NoCompletionLeft(text);
    RevokedUnfolds(Revoked(text));
    NotFound(Upper(Revoked(text)), COMPLETE);
  }

  lemma NotFound(s: string, w: string)
    requires !Contains(s, w)
    ensures Find(s, w, 0) == None
  {
    FindIs(s, w, 0, None);
  }

  // ----- The verdict a revoked text gets

  /** `m` is foreign to `FAILED` and to every counter phrase. */
  ghost predicate Neutral(m: string) {
    NoOverlap(FAILED, m) && forall n | 0 <= n < |COUNTERS| :: NoOverlap(COUNTERS[n], m)
  }

  lemma MarkersAreNeutral()
    ensures Neutral(COMPLETE) && Neutral(REVOKED)
  {
    PatternsApart();
    CountersAreShaped();
    forall n | 0 <= n < |COUNTERS|
      ensures NoOverlap(COUNTERS[n], COMPLETE) && NoOverlap(COUNTERS[n], REVOKED)
    {
      CounterApart(COUNTERS[n]);
    }
  }

  /** No counter phrase is created or destroyed by the rewrite. */
  lemma CountersKept(text: string, n: nat)
    requires n < |COUNTERS|
    ensures Contains(Upper(Revoked(text)), COUNTERS[n]) <==> Contains(Upper(text), COUNTERS[n])
    ensures OccurrenceCount(Upper(Revoked(text)), COUNTERS[n]) == OccurrenceCount(Upper(text), COUNTERS[n])
  {
    MarkersAreNeutral();
    CountersAreShaped();
    hide Revoked, Contains, NoOverlap, OccurrenceCount;
    RewriteKeeps(text, COUNTERS[n]);
  }

  lemma BenignInFront(a: string, m: string, b: string, j: nat)
    requires Neutral(m) && j + 6 <= |a|
    ensures BenignAt(a + m + b, j) <==> BenignAt(a, j)
  {
    hide OccursAt, NoOverlap;
    forall n: nat | n < |COUNTERS| && j + 6 >= |COUNTERS[n]|
      ensures OccursAt(a + m + b, COUNTERS[n], j + 6 - |COUNTERS[n]|)
              <==> OccursAt(a, COUNTERS[n], j + 6 - |COUNTERS[n]|)
    {
      SpliceOccurrences(a, m, b, COUNTERS[n], j + 6 - |COUNTERS[n]|);
    }
  }

  lemma BenignBehind(a: string, m: string, b: string, j: nat)
    requires Neutral(m) && |a + m| <= j
    ensures BenignAt(a + m + b, j) <==> BenignAt(b, j - |a + m|)
  {
    hide OccursAt, NoOverlap;
    var d := |a + m|;
    forall n: nat | n < |COUNTERS| && j + 6 >= |COUNTERS[n]|
      ensures OccursAt(a + m + b, COUNTERS[n], j + 6 - |COUNTERS[n]|) <==>
              j + 6 - |COUNTERS[n]| >= d && OccursAt(b, COUNTERS[n], j + 6 - |COUNTERS[n]| - d)
    {
      SpliceOccurrences(a, m, b, COUNTERS[n], j + 6 - |COUNTERS[n]|);
    }
    forall n: nat | n < |COUNTERS| && j - d + 6 >= |COUNTERS[n]|
      ensures j + 6 - |COUNTERS[n]| - d == j - d + 6 - |COUNTERS[n]|
    {}
  }

  lemma StandingSplits(a: string, m: string, b: string, j: nat)
    requires Neutral(m)
    ensures Standing(a + m + b, j) <==>
            (j + 6 <= |a| && Standing(a, j)) || (|a + m| <= j && Standing(b, j - |a + m|))
  {
    MarkerFacts();
    SpliceOccurrences(a, m, b, FAILED, j);
    if j + 6 <= |a| { BenignInFront(a, m, b, j); }
    if |a + m| <= j { BenignBehind(a, m, b, j); }
    hide OccursAt, NoOverlap, BenignAt;
  }

  lemma SomeStandingSplits(a: string, m: string, b: string)
    requires Neutral(m)
    ensures SomeStanding(a + m + b) <==> SomeStanding(a) || SomeStanding(b)
  {
    hide Standing, Neutral;
    forall j: nat | Standing(a + m + b, j) ensures SomeStanding(a) || SomeStanding(b) {
      StandingSplits(a, m, b, j);
    }
    forall j: nat | Standing(a, j) ensures Standing(a + m + b, j) {
      StandingFits(a, j);
      StandingSplits(a, m, b, j);
    }
    forall j: nat | Standing(b, j) ensures Standing(a + m + b, j + |a + m|) {
      StandingSplits(a, m, b, j + |a + m|);
    }
  }

  function StandsAt(u: string): nat -> bool { (j: nat) => Standing(u, j) }

  /** How many standing `FAILED` a text holds. */
  function StandingCount(u: string): nat { Tally(StandsAt(u), 0, |u|) }

  lemma StandingCountSplits(a: string, m: string, b: string)
    requires Neutral(m)
    ensures StandingCount(a + m + b) == StandingCount(a) + StandingCount(b)
  {
    hide OccursAt, BenignAt, Neutral;
    var u, n := a + m + b, |a + m|;
    var p, front, back := StandsAt(u), StandsAt(a), StandsAt(b);
    assert forall j: nat :: front(j) <==> Standing(a, j);
    assert forall j: nat :: back(j) <==> Standing(b, j);
    forall j: nat ensures p(j) <==> (j + 6 <= |a| && front(j)) || (n <= j && back(j - n)) {
      StandingSplits(a, m, b, j);
    }
    forall j: nat | front(j) ensures j + 6 <= |a| { StandingFits(a, j); }
    assert |u| == n + |b|;
    hide Standing, StandsAt;
    TallySplice(p, front, back, |a|, n, |b|);
  }

  lemma StandingFits(u: string, j: nat)
    requires Standing(u, j)
    ensures j + 6 <= |u|
  {
    MarkerFacts();
  }

  /** A `FAILED` that is no counter is neither created nor destroyed by the rewrite. */
  lemma {:induction false} FailedKept(text: string)
    ensures SomeStanding(Upper(Revoked(text))) <==> SomeStanding(Upper(text))
    ensures StandingCount(Upper(Revoked(text))) == StandingCount(Upper(text))
    decreases |text|
  {
    hide SomeStanding, Neutral, Find, StandingCount;
    var r := Find(Upper(text), COMPLETE, 0);
    if r.Some? {
      var p := r.value;
      UpperAroundMarker(text, p);
      UpperAroundRevoked(text, p);
      var rest := text[p + |COMPLETE|..];
      MarkerFacts();
      MarkersAreNeutral();
      FailedKept(rest);
      SomeStandingSplits(Upper(text[..p]), COMPLETE, Upper(rest));
      SomeStandingSplits(Upper(text[..p]), REVOKED, Upper(Revoked(rest)));
      StandingCountSplits(Upper(text[..p]), COMPLETE, Upper(rest));
      StandingCountSplits(Upper(text[..p]), REVOKED, Upper(Revoked(rest)));
    }
  }

  lemma HardFailedStands(text: string)
    requires HasHardFailed(text)
    ensures SomeStanding(Upper(text))
  {}

  /** After revocation the verdict is exactly: replan if the text asked for one, otherwise
      failed if it held any standing `FAILED`, otherwise none. */
  lemma VerdictAfterRevocation(text: string, negation: string -> bool)
    ensures Parse(Revoked(text), negation) ==
            if HasReplan(text) then Some(Replan(Revoked(text)))
            else if SomeStanding(Upper(text)) then Some(Failed(Revoked(text)))
            else None
  {
    var r := Revoked(text);
    hide Revoked, Parse, HasReplan, LineInitial, VerdictShaped, Standing, OnLastLine, SomeStanding;
    hide Hay, Window, OccursAt;
    ReplanKept(text);
    FailedKept(text);
    NoCompletionLeft(text);
    ParseIsTheTable(r, negation);
    if HasHardFailed(r) { HardFailedStands(r); }
    assert forall p: nat :: !MentionAt(r, negation, p);
  }

  // ----- Recognizing a revoked deliverable

  /** The token ending at `end` is not glued to a longer word. */
  predicate WholeToken(alphanumeric: char -> bool, s: string, end: nat) {
    end >= |s| || !(alphanumeric(s[end]) || s[end] == '_')
  }

  predicate HasRevocationMarker(alphanumeric: char -> bool, text: string) {
    var upper := Upper(text);
    && !Contains(upper, COMPLETE)
    && exists k | 0 <= k < |FindAll(upper, REVOKED, 0)| ::
         var p := FindAll(upper, REVOKED, 0)[k];
         p <= |upper| && PlacementOf(p, LineMapOf(upper), upper) == LineStart
         && WholeToken(alphanumeric, upper, p + |REVOKED|)
  }

  /** Where the marker at `p`, preceded by the blanks `text[s..p]`, ends up in the rewritten
      text: behind the same blanks, before the same character. */
  ghost predicate MovedTo(text: string, s: nat, p: nat, r: string, q: nat) {
    && s <= p && p + |COMPLETE| <= |text| && p - s <= q && q + |REVOKED| <= |r|
    && r[q - (p - s)..q] == text[s..p]
    && r[q..q + |REVOKED|] == REVOKED
    && (s == 0 ==> q == p)
    && (p + |COMPLETE| == |text| ==> q + |REVOKED| == |r|)
    && (p + |COMPLETE| < |text| && q + |REVOKED| < |r| ==>
          r[q + |REVOKED|] == text[p + |COMPLETE|] || UpperChar(text[p + |COMPLETE|]) == 'M')
  }

  lemma FirstOfRevoked(text: string)
    ensures text != [] && Revoked(text) != [] ==> Revoked(text)[0] == text[0] || UpperChar(text[0]) == 'M'
    ensures text == [] ==> Revoked(text) == []
  {
    RevokedUnfolds(text);
    MarkerFacts();
    var r := Find(Upper(text), COMPLETE, 0);
    hide Find, Revoked;
    if r.Some? && r.value == 0 {
      assert Upper(text)[0 + 0] == COMPLETE[0];
    }
  }

  lemma MovesHere(text: string, s: nat, p: nat)
    requires s <= p && Find(Upper(text), COMPLETE, 0) == Some(p)
    ensures MovedTo(text, s, p, Revoked(text), p)
  {
    hide Find, Revoked, Upper, OccursAt;
    MarkerFacts();
    OccurrenceFits(Upper(text), COMPLETE, p);
    RevokedUnfolds(text);
    var rest := text[p + |COMPLETE|..];
    FirstOfRevoked(rest);
    PlacesOfSplice(text[..p], REVOKED, Revoked(rest), s);
    assert text[..p][s..] == text[s..p];
  }

  lemma PlacesOfSplice(a: string, m: string, c: string, s: nat)
    requires s <= |a|
    ensures var r := a + m + c;
            && r[s..|a|] == a[s..] && r[|a|..|a| + |m|] == m
            && (c != [] ==> |a| + |m| < |r| && r[|a| + |m|] == c[0])
  {}

  lemma ShiftedSlice(a: string, b: string, i: nat, j: nat)
    requires i <= j <= |b|
    ensures (a + b)[|a| + i..|a| + j] == b[i..j]
  {}

  /** Moving holds behind any rewritten front. */
  lemma MovedBehind(a: string, b: string, a': string, b': string, s: nat, p: nat, q: nat)
    requires a != [] && MovedTo(b, s, p, b', q)
    ensures MovedTo(a + b, |a| + s, |a| + p, a' + b', |a'| + q)
  {
    ShiftedSlice(a, b, s, p);
    ShiftedSlice(a', b', q - (p - s), q);
    ShiftedSlice(a', b', q, q + |REVOKED|);
    assert |a'| + q - (|a| + p - (|a| + s)) == |a'| + (q - (p - s));
  }

  /** The text behind its first marker, and what the rewrite makes of the two parts. */
  lemma BehindFirst(text: string, f: nat, s: nat, p: nat) returns (front: string, rest: string)
    requires Find(Upper(text), COMPLETE, 0) == Some(f) && f < p && f + 16 <= s <= p && p <= |text|
    requires OccursAt(Upper(text), COMPLETE, p) && forall k | s <= k < p && k < |text| :: IsWhitespace(text[k])
    ensures f + 16 <= |text| && front == text[..f + 16] && rest == text[f + 16..] && text == front + rest
    ensures Revoked(text) == (text[..f] + REVOKED) + Revoked(rest)
    ensures OccursAt(Upper(rest), COMPLETE, p - f - 16)
    ensures forall k | s - f - 16 <= k < p - f - 16 && k < |rest| :: IsWhitespace(rest[k])
  {
    hide Revoked, Find, OccursAt, Upper, IsWhitespace;
    MarkerFacts();
    var u, e := Upper(text), f + 16;
    OccurrenceFits(u, COMPLETE, f);
    RevokedUnfolds(text);
    UpperSlice(text, e, |text|);
    assert text[e..|text|] == text[e..] && u[e..|text|] == u[e..];
    OccurrenceInSuffix(u, e, COMPLETE, p - e);
    front, rest := text[..e], text[e..];
    assert forall k | 0 <= k < |rest| :: rest[k] == text[e + k];
  }

  lemma {:induction false} MarkerMoves(text: string, s: nat, p: nat)
    requires s <= p && OccursAt(Upper(text), COMPLETE, p)
    requires forall k | s <= k < p && k < |text| :: IsWhitespace(text[k])
    ensures exists q: nat :: MovedTo(text, s, p, Revoked(text), q)
    decreases |text|
  {
    hide MovedTo, Revoked, Find, OccursAt, Upper, IsWhitespace;
    MarkerFacts();
    OccurrenceFits(Upper(text), COMPLETE, p);
    var f := Find(Upper(text), COMPLETE, 0).value;
    if f == p {
      MovesHere(text, s, p);
    } else {
      BlanksBehindMarker(text, f, s, p);
      var front, rest := BehindFirst(text, f, s, p);
      var e := f + 16;
      MarkerMoves(rest, s - e, p - e);
      var q: nat :| MovedTo(rest, s - e, p - e, Revoked(rest), q);
      MovedBehind(front, rest, text[..f] + REVOKED, Revoked(rest), s - e, p - e, q);
      assert MovedTo(text, s, p, Revoked(text), |text[..f] + REVOKED| + q);
    }
  }

  /** Blanks that end where a later marker starts lie behind the earlier marker. */
  lemma BlanksBehindMarker(text: string, f: nat, s: nat, p: nat)
    requires f < p && s <= p && OccursAt(Upper(text), COMPLETE, f) && OccursAt(Upper(text), COMPLETE, p)
    requires forall k | s <= k < p && k < |text| :: IsWhitespace(text[k])
    ensures f + |COMPLETE| <= s
  {
    MarkerFacts();
    MarkersDoNotSelfOverlap();
    if p < f + |COMPLETE| { SelfOccurrencesApart(Upper(text), COMPLETE, f, p); }
    LastOfMarker();
    assert Upper(text)[f + 15] == COMPLETE[15];
    hide NoSelfOverlap;
  }

  lemma LastOfMarker() ensures COMPLETE[15] == 'E' {}

  /** A completion at the start of its line, not glued to a longer word, leaves a text that
      is recognized as revoked. */
  lemma LineInitialCompletionIsRecognized(alphanumeric: char -> bool, text: string, p: nat)
    requires alphanumeric('M')
    requires OccursAt(Upper(text), COMPLETE, p) && p <= |text| && LineInitial(Upper(text), p)
    requires WholeToken(alphanumeric, Upper(text), p + |COMPLETE|)
    ensures HasRevocationMarker(alphanumeric, Revoked(text))
  {
    hide *;
    NoCompletionLeft(text);
    var ls := SkipBack(IsNotNewline, Upper(text), p);
    var s := if ls == 0 then 0 else ls - 1;
    BlanksInFront(text, p);
    MarkerMoves(text, s, p);
    var q: nat :| MovedTo(text, s, p, Revoked(text), q);
    LandsAtLineStart(text, s, p, Revoked(text), q);
    LandsWhole(alphanumeric, text, s, p, Revoked(text), q);
    LandsAsToken(text, s, p, Revoked(text), q);
    RevocationShows(alphanumeric, Revoked(text), q);
  }

  lemma LandsAsToken(text: string, s: nat, p: nat, r: string, q: nat)
    requires MovedTo(text, s, p, r, q)
    ensures q + |REVOKED| <= |r| && r[q..q + |REVOKED|] == REVOKED
  {}

  lemma BlanksInFront(text: string, p: nat)
    requires p <= |text| && LineInitial(Upper(text), p)
    ensures var ls := SkipBack(IsNotNewline, Upper(text), p);
            var s := if ls == 0 then 0 else ls - 1;
            && s <= p && (s > 0 ==> s < p && text[s] == '\n')
            && forall k | s <= k < p :: IsWhitespace(text[k]) && IsWhitespace(UpperChar(text[k]))
  {
    var u := Upper(text);
    var ls := SkipBack(IsNotNewline, u, p);
    assert forall k | ls <= k < p :: u[ls..p][k - ls] == u[k];
  }

  lemma LandsAtLineStart(text: string, s: nat, p: nat, r: string, q: nat)
    requires MovedTo(text, s, p, r, q)
    requires forall k | s <= k < p :: IsWhitespace(UpperChar(text[k]))
    requires s > 0 ==> s < p && text[s] == '\n'
    ensures q <= |r| && LineInitial(Upper(r), q)
  {
    var u := Upper(r);
    var d := q - (p - s);
    forall k | d <= k < q ensures r[k] == text[k - d + s] {
      assert r[k] == r[d..q][k - d] == text[s..p][k - d];
    }
    var ls := SkipBack(IsNotNewline, u, q);
    assert s > 0 ==> r[d] == '\n';
    assert ls >= d;
    assert forall k | ls <= k < q :: IsWhitespace(u[k]);
  }

  lemma LandsWhole(alphanumeric: char -> bool, text: string, s: nat, p: nat, r: string, q: nat)
    requires MovedTo(text, s, p, r, q) && alphanumeric('M')
    requires WholeToken(alphanumeric, Upper(text), p + |COMPLETE|)
    ensures WholeToken(alphanumeric, Upper(r), q + |REVOKED|)
  {}

  lemma RevokedSliceOccurs(r: string, q: nat)
    requires q + |REVOKED| <= |r| && r[q..q + |REVOKED|] == REVOKED
    ensures OccursAt(Upper(r), REVOKED, q) && q < |r| && !IsWhitespace(Upper(r)[q])
  {
    RevokedIsItsOwnUpper();
    MarkerFacts();
    forall k | 0 <= k < |REVOKED| ensures Upper(r)[q + k] == REVOKED[k] {
      assert r[q + k] == r[q..q + |REVOKED|][k] == REVOKED[k];
      assert Upper(REVOKED)[k] == UpperChar(REVOKED[k]);
    }
    assert Upper(r)[q + 0] == REVOKED[0];
  }

  lemma RevocationShows(alphanumeric: char -> bool, r: string, q: nat)
    requires !Contains(Upper(r), COMPLETE)
    requires q + |REVOKED| <= |r| && r[q..q + |REVOKED|] == REVOKED
    requires LineInitial(Upper(r), q) && WholeToken(alphanumeric, Upper(r), q + |REVOKED|)
    ensures HasRevocationMarker(alphanumeric, r)
  {
    RevokedSliceOccurs(r, q);
    hide OccursAt, FindAll, LineInitial, LineMapOf, PlacementOf, Contains, Upper, WholeToken, OnLastLine;
    MarkerFacts();
    MarkersDoNotSelfOverlap();
    var u := Upper(r);
    FindAllIsExact(u, REVOKED);
    PlacementMeans(u, u, q);
    var ps := FindAll(u, REVOKED, 0);
    var k :| 0 <= k < |ps| && ps[k] == q;
  }
}
