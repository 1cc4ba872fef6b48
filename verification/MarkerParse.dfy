/** The verdict of a deliverable: occurrences of the markers, and the precedence table
    that turns them into a verdict (src/markers.rs). */
module MarkerParse {
  import opened Text
  import opened Patterns
  import opened Counters
  import opened IdSearch
  import opened Markers

  // ----- Occurrences

  function MarkerToken(kind: Kind): string {
    match kind
    case KReplan => REPLAN
    case KFailed => FAILED
    case KComplete => COMPLETE
  }

  /** The text the markers are looked for in. */
  function Hay(text: string): (hay: string)
    ensures |hay| == |text|
  {
    Blanked(Upper(text))
  }

  /** What may hold a negation cue: up to 64 characters before the marker. */
  function Window(hay: string, start: nat): string
    requires start <= |hay|
  {
    hay[if start < 64 then 0 else start - 64..start]
  }

  predicate VerdictShaped(hay: string, end: nat)
    requires end <= |hay|
  {
    var t := TrimStart(hay[end..]);
    t != [] && (t[0] == ':' || t[0] == '(')
  }

  /** Nothing but whitespace from `from` up to `q`, which holds a colon or an opening bracket. */
  predicate ShapeAt(hay: string, from: nat, q: nat) {
    from <= q < |hay| && (forall k | from <= k < q :: IsWhitespace(hay[k])) && (hay[q] == ':' || hay[q] == '(')
  }

  ghost predicate FollowedByMark(hay: string, from: nat) { exists q: nat :: ShapeAt(hay, from, q) }

  lemma VerdictShapedExactly(hay: string, end: nat)
    requires end <= |hay|
    ensures VerdictShaped(hay, end) <==> FollowedByMark(hay, end)
  {
    var s := hay[end..];
    var i := SkipWhile(IsWhitespace, s, 0);
    assert forall k | 0 <= k < |s| :: s[k] == hay[end + k];
    if VerdictShaped(hay, end) {
      assert forall k | end <= k < end + i :: hay[k] == s[k - end];
      assert ShapeAt(hay, end, end + i);
    }
    if FollowedByMark(hay, end) {
      var q: nat :| ShapeAt(hay, end, q);
      assert s[q - end] == hay[q];
      assert i == q - end;
    }
  }

  function OccurrenceAt(
      lines: LineMap, hay: string, negation: string -> bool, kind: Kind, start: nat): (o: Occurrence)
    requires start + |MarkerToken(kind)| <= |hay| && |lines.starts| > 0
    ensures o.kind == kind && o.start == start && o.end == start + |MarkerToken(kind)|
  {
    var end := start + |MarkerToken(kind)|;
    Occurrence(kind, start, end, PlacementOf(start, lines, hay), negation(Window(hay, start)),
               kind == KFailed && VerdictShaped(hay, end))
  }

  /** The occurrences of one kind at the given positions. */
  function OfKind(
      lines: LineMap, hay: string, negation: string -> bool, kind: Kind, ps: seq<nat>): (os: seq<Occurrence>)
    requires |lines.starts| > 0 && forall k | 0 <= k < |ps| :: ps[k] + |MarkerToken(kind)| <= |hay|
    ensures |os| == |ps|
    ensures forall k | 0 <= k < |ps| :: os[k] == OccurrenceAt(lines, hay, negation, kind, ps[k])
  {
    seq(|ps|, k requires 0 <= k < |ps| => OccurrenceAt(lines, hay, negation, kind, ps[k]))
  }

  function Positions(hay: string, kind: Kind): (ps: seq<nat>)
    ensures forall k | 0 <= k < |ps| :: ps[k] + |MarkerToken(kind)| <= |hay|
  {
    TokensAreNotEmpty();
    FindAllSound(hay, MarkerToken(kind), 0);
    FindAll(hay, MarkerToken(kind), 0)
  }

  lemma TokensAreNotEmpty()
    ensures forall kind :: MarkerToken(kind) != [] && |MarkerToken(kind)| >= 6
  {}

  function OccurrencesOf(text: string, negation: string -> bool): seq<Occurrence> {
    var hay, lines := Hay(text), LineMapOf(text);
    OfKind(lines, hay, negation, KReplan, Positions(hay, KReplan))
    + OfKind(lines, hay, negation, KFailed, Positions(hay, KFailed))
    + OfKind(lines, hay, negation, KComplete, Positions(hay, KComplete))
  }

  lemma FindAllUnfolds(s: string, w: string, from: nat)
    requires from <= |s| && w != []
    ensures match Find(s, w, from)
            case None => FindAll(s, w, from) == []
            case Some(p) => p + |w| <= |s| && FindAll(s, w, from) == [p] + FindAll(s, w, p + |w|)
  {
    hide OccursAt;
    var r := Find(s, w, from);
    if r.Some? { OccurrenceFits(s, w, r.value); }
  }

  method FindAllLoop(hay: string, needle: string) returns (out: seq<nat>)
    requires needle != []
    ensures out == FindAll(hay, needle, 0)
  {
    hide *;
    out := [];
    var from := 0;
    while true
      invariant 0 <= from <= |hay| && out + FindAll(hay, needle, from) == FindAll(hay, needle, 0)
      decreases |hay| - from
    {
      FindAllUnfolds(hay, needle, from);
      var rel := Find(hay, needle, from);
      if rel == None { return; }
      out := out + [rel.value];
      from := rel.value + |needle|;
    }
  }

  /** Classify the matches of one kind, one after the other. */
  method Classify(lines: LineMap, hay: string, negation: string -> bool, kind: Kind) returns (out: seq<Occurrence>)
    requires |lines.starts| > 0
    ensures out == OfKind(lines, hay, negation, kind, Positions(hay, kind))
  {
    hide OccurrenceAt;
    TokensAreNotEmpty();
    var ps := FindAllLoop(hay, MarkerToken(kind));
    assert ps == Positions(hay, kind);
    hide Positions, MarkerToken;
    ghost var all := OfKind(lines, hay, negation, kind, ps);
    out := [];
    for k := 0 to |ps|
      invariant out == all[..k]
    {
      out := out + [OccurrenceAt(lines, hay, negation, kind, ps[k])];
    }
    assert all[..|ps|] == all;
  }

  method Occurrences(text: string, negation: string -> bool) returns (out: seq<Occurrence>)
    ensures out == OccurrencesOf(text, negation)
  {
    hide OfKind, Positions, Upper, LineMapOf;
    var hay := SanitizeFailureCounters(Upper(text));
    assert hay == Hay(text);
    var lines := BuildLineMap(text);
    var replans := Classify(lines, hay, negation, KReplan);
    var failures := Classify(lines, hay, negation, KFailed);
    var completions := Classify(lines, hay, negation, KComplete);
    out := replans + failures + completions;
  }

  // ----- The parser

  predicate IsHardFailure(o: Occurrence) { o.kind == KFailed && (o.placement == LineStart || o.verdictShaped) }

  predicate IsMention(o: Occurrence) { o.kind == KComplete && !o.negated }

  predicate IsAuthoritative(o: Occurrence) { IsMention(o) && o.placement != Embedded }

  function Select(occs: seq<Occurrence>, p: Occurrence -> bool): (r: seq<Occurrence>)
    ensures forall o :: o in r <==> o in occs && p(o)
  {
    if occs == [] then []
    else (if p(occs[0]) then [occs[0]] else []) + Select(occs[1..], p)
  }

  function Rank(p: Placement): nat {
    match p
    case LineStart => 0
    case TerminalLine => 1
    case Embedded => 2
  }

  /** The first occurrence of least rank. */
  function Best(occs: seq<Occurrence>): (o: Occurrence)
    requires occs != []
    ensures o in occs && forall x | x in occs :: Rank(o.placement) <= Rank(x.placement)
  {
    if |occs| == 1 then occs[0]
    else
      var b := Best(occs[1..]);
      if Rank(occs[0].placement) <= Rank(b.placement) then occs[0] else b
  }

  /** End of the stretch behind a marker that may name its task: the rest of its line, at
      most 120 characters. */
  function IdWindowEnd(text: string, end: nat): (e: nat)
    requires end <= |text|
    ensures end <= e <= |text| && e <= end + 120
  {
    var lineEnd := SkipWhile(IsNotNewline, text, end);
    if end + 120 < lineEnd then end + 120 else lineEnd
  }

  function BoundTaskId(text: string, o: Occurrence): Option<string> {
    if o.start <= o.end <= |text| then FindTaskIdToken(text[o.start..IdWindowEnd(text, o.end)]) else None
  }

  function FirstBoundTaskId(text: string, candidates: seq<Occurrence>): (r: Option<string>)
    ensures r.Some? ==> exists o | o in candidates :: BoundTaskId(text, o) == r
  {
    if candidates == [] then None
    else if BoundTaskId(text, candidates[0]).Some? then BoundTaskId(text, candidates[0])
    else FirstBoundTaskId(text, candidates[1..])
  }

  function CompleteWith(text: string, o: Occurrence, candidates: seq<Occurrence>): MissionMarker {
    Complete(if BoundTaskId(text, o).Some? then BoundTaskId(text, o) else FirstBoundTaskId(text, candidates))
  }

  function Verdict(text: string, occs: seq<Occurrence>): Option<MissionMarker> {
    var authoritative, mentions := Select(occs, IsAuthoritative), Select(occs, IsMention);
    if occs == [] then None
    else if exists o | o in occs :: o.kind == KReplan then Some(Replan(text))
    else if exists o | o in occs :: IsHardFailure(o) then Some(Failed(text))
    else if authoritative != [] then Some(CompleteWith(text, Best(authoritative), authoritative))
    else if exists o | o in occs :: o.kind == KFailed then Some(Failed(text))
    else if mentions != [] then Some(CompleteWith(text, mentions[0], mentions))
    else None
  }

  function Parse(text: string, negation: string -> bool): Option<MissionMarker> {
    Verdict(text, OccurrencesOf(text, negation))
  }

  // ----- What the table says of the text

  /** A `FAILED` at the start of its line, or followed by a colon or a bracket. */
  ghost predicate HardFailedAt(text: string, j: nat) {
    && j + 6 <= |text| && Standing(Upper(text), j)
    && (LineInitial(Hay(text), j) || FollowedByMark(Hay(text), j + 6))
  }

  ghost predicate HasHardFailed(text: string) { exists j: nat :: HardFailedAt(text, j) }

  ghost predicate HasReplan(text: string) { Contains(Upper(text), REPLAN) }

  /** A completion at `p` without a negation cue in the 64 characters before it. */
  ghost predicate MentionAt(text: string, negation: string -> bool, p: nat) {
    p <= |text| && OccursAt(Upper(text), COMPLETE, p) && !negation(Hay(text)[if p < 64 then 0 else p - 64..p])
  }

  ghost predicate HasMention(text: string, negation: string -> bool) {
    exists p: nat :: MentionAt(text, negation, p)
  }

  /** Such a completion at the start of its line, or on the last line that is not blank. */
  ghost predicate HasAuthoritative(text: string, negation: string -> bool) {
    exists p: nat :: MentionAt(text, negation, p) && (LineInitial(Hay(text), p) || OnLastLine(text, p))
  }

  // ----- The parser computes the table

  lemma PositionsExact(hay: string, kind: Kind)
    ensures forall i: nat :: i in Positions(hay, kind) <==> OccursAt(hay, MarkerToken(kind), i)
  {
    TokensAreNotEmpty();
    MarkersDoNotSelfOverlap();
    FindAllIsExact(hay, MarkerToken(kind));
  }

  lemma OfKindMembers(lines: LineMap, hay: string, negation: string -> bool, kind: Kind, o: Occurrence)
    requires |lines.starts| > 0
    ensures o in OfKind(lines, hay, negation, kind, Positions(hay, kind)) <==>
            OccursAt(hay, MarkerToken(kind), o.start) && o.start + |MarkerToken(kind)| <= |hay|
            && o == OccurrenceAt(lines, hay, negation, kind, o.start)
  {
    PositionsExact(hay, kind);
    hide OccurrenceAt, Positions, OccursAt, MarkerToken;
    var ps := Positions(hay, kind);
    var os := OfKind(lines, hay, negation, kind, ps);
    if o in os {
      var k :| 0 <= k < |os| && os[k] == o;
      MatchIsAnElement(ps, k);
    }
    if o.start in ps {
      var k :| 0 <= k < |ps| && ps[k] == o.start;
      assert os[k] in os;
    }
  }

  /** The occurrence list is exactly the marker tokens of the blanked text, each classified
      where it stands. */
  lemma OccurrencesExact(text: string, negation: string -> bool, o: Occurrence)
    ensures o in OccurrencesOf(text, negation) <==>
            OccursAt(Hay(text), MarkerToken(o.kind), o.start) && o.start + |MarkerToken(o.kind)| <= |text|
            && o == OccurrenceAt(LineMapOf(text), Hay(text), negation, o.kind, o.start)
  {
    hide OfKind, OccurrenceAt, Positions, OccursAt, MarkerToken, LineMapOf, Hay;
    var hay, lines := Hay(text), LineMapOf(text);
    OfKindMembers(lines, hay, negation, KReplan, o);
    OfKindMembers(lines, hay, negation, KFailed, o);
    OfKindMembers(lines, hay, negation, KComplete, o);
  }

  /** Which tokens of the original text the blanked text still shows. */
  lemma HayTokens(text: string, i: nat)
    ensures OccursAt(Hay(text), REPLAN, i) <==> OccursAt(Upper(text), REPLAN, i)
    ensures OccursAt(Hay(text), COMPLETE, i) <==> OccursAt(Upper(text), COMPLETE, i)
    ensures OccursAt(Hay(text), FAILED, i) <==> Standing(Upper(text), i)
  {
    MarkersSurviveBlanking(Upper(text), REPLAN, i);
    MarkersSurviveBlanking(Upper(text), COMPLETE, i);
    FailedSurvivesUnlessBenign(Upper(text), i);
    hide Blanked, OccursAt, BenignAt, Upper;
  }

  lemma NoNewlineInCounters()
    ensures forall n | 0 <= n < |COUNTERS| :: !Has(COUNTERS[n], '\n')
  {
    assert COUNTERS[0] == TESTS_FAILED && COUNTERS[1] == TEST_FAILED && COUNTERS[2] == ZERO_FAILED;
  }

  lemma HayKeepsNewlines(text: string)
    ensures forall p | 0 <= p < |text| :: Hay(text)[p] == '\n' <==> text[p] == '\n'
  {
    NoNewlineInCounters();
    forall p: nat | p < |text| ensures Hay(text)[p] == '\n' <==> text[p] == '\n' {
      var u := Upper(text);
      if Covered(u, p) {
        var i: nat, n: nat :| i <= p && n < |COUNTERS| && OccursAt(u, COUNTERS[n], i) && p < i + |COUNTERS[n]|;
        assert u[i + (p - i)] == COUNTERS[n][p - i];
      }
    }
  }

  lemma MarkerIsVisible(text: string, kind: Kind, i: nat)
    requires OccursAt(Upper(text), MarkerToken(kind), i)
    ensures i + |MarkerToken(kind)| <= |text| && i < |text| && !IsWhitespace(text[i])
  {
    MarkerFacts();
    TokensAreNotEmpty();
    assert Upper(text)[i + 0] == MarkerToken(kind)[0];
  }

  /** An occurrence's fields, in terms of the text alone. */
  lemma OccurrenceMeans(text: string, negation: string -> bool, kind: Kind, i: nat)
    requires OccursAt(Hay(text), MarkerToken(kind), i)
    ensures i + |MarkerToken(kind)| <= |text|
    ensures var o := OccurrenceAt(LineMapOf(text), Hay(text), negation, kind, i);
            && (o.placement == LineStart <==> LineInitial(Hay(text), i))
            && (o.placement != Embedded <==> LineInitial(Hay(text), i) || OnLastLine(text, i))
            && o.negated == negation(Window(Hay(text), i))
            && o.verdictShaped == (kind == KFailed && VerdictShaped(Hay(text), i + |MarkerToken(kind)|))
  {
    HayTokens(text, i);
    MarkerIsVisible(text, kind, i);
    HayKeepsNewlines(text);
    PlacementMeans(text, Hay(text), i);
    hide Hay, OccursAt, LineMapOf, PlacementOf, LineInitial, OnLastLine, Window, VerdictShaped;
  }

  ghost predicate Lists(text: string, negation: string -> bool, o: Occurrence) { o in OccurrencesOf(text, negation) }

  /** A token of the blanked text is in the list; what the list says of it is in the text. */
  lemma Listed(text: string, negation: string -> bool, kind: Kind, i: nat) returns (o: Occurrence)
    requires OccursAt(Hay(text), MarkerToken(kind), i)
    ensures Lists(text, negation, o) && o.kind == kind && o.start == i
  {
    OccurrenceFits(Hay(text), MarkerToken(kind), i);
    hide OccursAt, OccurrenceAt, OccurrencesOf, LineMapOf, MarkerToken, Hay;
    o := OccurrenceAt(LineMapOf(text), Hay(text), negation, kind, i);
    OccurrencesExact(text, negation, o);
  }

  lemma ListedMeans(text: string, negation: string -> bool, o: Occurrence)
    requires Lists(text, negation, o)
    ensures o.start + |MarkerToken(o.kind)| <= |text| && o.end == o.start + |MarkerToken(o.kind)|
    ensures OccursAt(Hay(text), MarkerToken(o.kind), o.start)
    ensures o.placement == LineStart <==> LineInitial(Hay(text), o.start)
    ensures o.placement != Embedded <==> LineInitial(Hay(text), o.start) || OnLastLine(text, o.start)
    ensures o.negated == negation(Window(Hay(text), o.start))
    ensures o.verdictShaped == (o.kind == KFailed && VerdictShaped(Hay(text), o.start + |MarkerToken(o.kind)|))
  {
    hide OccursAt, OccurrenceAt, OccurrencesOf, LineMapOf, MarkerToken, Hay, LineInitial, OnLastLine, Window;
    hide VerdictShaped;
    OccurrencesExact(text, negation, o);
    OccurrenceMeans(text, negation, o.kind, o.start);
  }

  lemma ReplanListed(text: string, negation: string -> bool)
    ensures (exists o :: Lists(text, negation, o) && o.kind == KReplan) <==> HasReplan(text)
  {
    hide OccursAt, Hay, OccurrencesOf, Lists, LineInitial, OnLastLine, VerdictShaped, Window, Upper;
    if HasReplan(text) {
      var i: nat :| i <= |Upper(text)| && OccursAt(Upper(text), REPLAN, i);
      HayTokens(text, i);
      var o := Listed(text, negation, KReplan, i);
    }
    forall o | Lists(text, negation, o) && o.kind == KReplan ensures HasReplan(text) {
      ListedMeans(text, negation, o);
      HayTokens(text, o.start);
      assert o.start <= |Upper(text)|;
    }
  }

  lemma FailedListed(text: string, negation: string -> bool)
    ensures (exists o :: Lists(text, negation, o) && o.kind == KFailed) <==> SomeStanding(Upper(text))
  {
    hide OccursAt, Hay, OccurrencesOf, Lists, LineInitial, OnLastLine, VerdictShaped, Window, Standing;
    if SomeStanding(Upper(text)) {
      var j: nat :| Standing(Upper(text), j);
      HayTokens(text, j);
      var o := Listed(text, negation, KFailed, j);
    }
    forall o | Lists(text, negation, o) && o.kind == KFailed ensures SomeStanding(Upper(text)) {
      ListedMeans(text, negation, o);
      HayTokens(text, o.start);
    }
  }

  lemma HardFailedListed(text: string, negation: string -> bool)
    ensures (exists o :: Lists(text, negation, o) && IsHardFailure(o)) <==> HasHardFailed(text)
  {
    hide OccursAt, Hay, OccurrencesOf, Lists, LineInitial, OnLastLine, VerdictShaped, Window, Standing, FollowedByMark;
    MarkerFacts();
    if HasHardFailed(text) {
      var j: nat :| HardFailedAt(text, j);
      HayTokens(text, j);
      var o := Listed(text, negation, KFailed, j);
      ListedMeans(text, negation, o);
      VerdictShapedExactly(Hay(text), j + 6);
    }
    forall o | Lists(text, negation, o) && IsHardFailure(o) ensures HardFailedAt(text, o.start) {
      ListedMeans(text, negation, o);
      HayTokens(text, o.start);
      VerdictShapedExactly(Hay(text), o.start + 6);
    }
  }

  lemma MentionListed(text: string, negation: string -> bool)
    ensures (exists o :: Lists(text, negation, o) && IsMention(o)) <==> HasMention(text, negation)
    ensures (exists o :: Lists(text, negation, o) && IsAuthoritative(o)) <==> HasAuthoritative(text, negation)
  {
    hide OccursAt, Hay, OccurrencesOf, Lists, LineInitial, OnLastLine, VerdictShaped, Upper;
    forall p: nat | MentionAt(text, negation, p)
      ensures exists o :: Lists(text, negation, o) && IsMention(o)
      ensures LineInitial(Hay(text), p) || OnLastLine(text, p) ==>
                exists o :: Lists(text, negation, o) && IsAuthoritative(o)
    {
      HayTokens(text, p);
      var o := Listed(text, negation, KComplete, p);
      ListedMeans(text, negation, o);
    }
    forall o | Lists(text, negation, o) && IsMention(o)
      ensures MentionAt(text, negation, o.start)
      ensures IsAuthoritative(o) ==> LineInitial(Hay(text), o.start) || OnLastLine(text, o.start)
    {
      ListedMeans(text, negation, o);
      HayTokens(text, o.start);
    }
  }

  lemma SelectionsMean(occs: seq<Occurrence>)
    ensures Select(occs, IsAuthoritative) != [] <==> exists o :: o in occs && IsAuthoritative(o)
    ensures Select(occs, IsMention) != [] <==> exists o :: o in occs && IsMention(o)
  {
    hide IsAuthoritative, IsMention;
    var authoritative, mentions := Select(occs, IsAuthoritative), Select(occs, IsMention);
    if authoritative != [] { assert authoritative[0] in authoritative; }
    if mentions != [] { assert mentions[0] in mentions; }
  }

  /** What the precedence table says of a text, row by row. */
  ghost predicate IsTableVerdict(text: string, negation: string -> bool, v: Option<MissionMarker>) {
    if HasReplan(text) then v == Some(Replan(text))
    else if HasHardFailed(text) then v == Some(Failed(text))
    else if HasAuthoritative(text, negation) then v.Some? && v.value.Complete?
    else if SomeStanding(Upper(text)) then v == Some(Failed(text))
    else if HasMention(text, negation) then v.Some? && v.value.Complete?
    else v == None
  }

  /** The parser implements the table. */
  lemma ParseIsTheTable(text: string, negation: string -> bool)
    ensures IsTableVerdict(text, negation, Parse(text, negation))
  {
    hide HasReplan, HasHardFailed, HasAuthoritative, SomeStanding, HasMention, OccurrencesOf,
      IsHardFailure, IsAuthoritative, IsMention, CompleteWith;
    var occs := OccurrencesOf(text, negation);
    ReplanListed(text, negation);
    HardFailedListed(text, negation);
    MentionListed(text, negation);
    FailedListed(text, negation);
    SelectionsMean(occs);
    assert forall o :: Lists(text, negation, o) <==> o in occs;
    hide Lists;
    VerdictMeans(text, occs);
  }

  lemma VerdictMeans(text: string, occs: seq<Occurrence>)
    ensures var v := Verdict(text, occs);
            if exists o :: o in occs && o.kind == KReplan then v == Some(Replan(text))
            else if exists o :: o in occs && IsHardFailure(o) then v == Some(Failed(text))
            else if Select(occs, IsAuthoritative) != [] then v.Some? && v.value.Complete?
            else if exists o :: o in occs && o.kind == KFailed then v == Some(Failed(text))
            else if Select(occs, IsMention) != [] then v.Some? && v.value.Complete?
            else v == None
  {
    hide IsHardFailure, IsAuthoritative, IsMention;
    if occs == [] {
      assert forall o :: o !in occs;
    }
  }
}
