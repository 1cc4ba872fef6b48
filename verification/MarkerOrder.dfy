/** Which completion is asked for its task id first (src/markers.rs). */
module MarkerOrder {
  import opened Text
  import opened Counters
  import opened Markers
  import opened MarkerParse
  import opened Verdicts
  import opened BoundIds

  /** Occurrences in the order of the text. */
  ghost predicate Ascending(os: seq<Occurrence>) {
    forall j, k | 0 <= j < k < |os| :: os[j].start < os[k].start
  }

  lemma {:induction false} SelectAscends(os: seq<Occurrence>, p: Occurrence -> bool)
    requires Ascending(os)
    ensures Ascending(Select(os, p))
  {
    if os != [] {
      var rest := Select(os[1..], p);
      SelectAscends(os[1..], p);
      forall o | o in rest ensures os[0].start < o.start {
        var k :| 0 <= k < |os[1..]| && os[1..][k] == o;
        assert os[k + 1] == o;
      }
    }
  }

  lemma {:induction false} SelectSkips(front: seq<Occurrence>, os: seq<Occurrence>, p: Occurrence -> bool)
    requires forall o | o in front :: !p(o)
    ensures Select(front + os, p) == Select(os, p)
  {
    if front == [] {
      assert front + os == os;
    } else {
      assert (front + os)[1..] == front[1..] + os;
      SelectSkips(front[1..], os, p);
    }
  }

  lemma KindAscends(lines: LineMap, hay: string, negation: string -> bool, kind: Kind)
    requires |lines.starts| > 0
    ensures Ascending(OfKind(lines, hay, negation, kind, Positions(hay, kind)))
  {
    hide OccurrenceAt;
    TokensAreNotEmpty();
    FindAllSound(hay, MarkerToken(kind), 0);
    hide OccursAt, FindAll;
    OccurrencesStart(lines, hay, negation, kind, Positions(hay, kind));
  }

  lemma OccurrencesStart(lines: LineMap, hay: string, negation: string -> bool, kind: Kind, ps: seq<nat>)
    requires |lines.starts| > 0 && forall k | 0 <= k < |ps| :: ps[k] + |MarkerToken(kind)| <= |hay|
    ensures forall k | 0 <= k < |ps| ::
              var o := OfKind(lines, hay, negation, kind, ps)[k]; o.start == ps[k] && o.kind == kind
  {
    hide MarkerToken;
  }

  lemma OnlyCompletions(text: string, negation: string -> bool) returns (front: seq<Occurrence>, os: seq<Occurrence>)
    ensures OccurrencesOf(text, negation) == front + os && Ascending(os)
    ensures forall o | o in front :: o.kind != KComplete
  {
    hide OfKind, Positions, OccurrenceAt, LineMapOf, Hay;
    var hay, lines := Hay(text), LineMapOf(text);
    var replans := OfKind(lines, hay, negation, KReplan, Positions(hay, KReplan));
    var failures := OfKind(lines, hay, negation, KFailed, Positions(hay, KFailed));
    front, os := replans + failures, OfKind(lines, hay, negation, KComplete, Positions(hay, KComplete));
    KindAscends(lines, hay, negation, KComplete);
    OccurrencesStart(lines, hay, negation, KReplan, Positions(hay, KReplan));
    OccurrencesStart(lines, hay, negation, KFailed, Positions(hay, KFailed));
  }

  /** Both selections of the verdict table are in the order of the text. */
  lemma SelectionsAscend(text: string, negation: string -> bool)
    ensures Ascending(Select(OccurrencesOf(text, negation), IsAuthoritative))
    ensures Ascending(Select(OccurrencesOf(text, negation), IsMention))
  {
    var front, os := OnlyCompletions(text, negation);
    hide OccurrencesOf;
    SelectSkips(front, os, IsAuthoritative);
    SelectSkips(front, os, IsMention);
    SelectAscends(os, IsAuthoritative);
    SelectAscends(os, IsMention);
  }

  /** The first occurrence at the start of its line, or the first one of all if none is. */
  ghost predicate IsFirstPlaced(os: seq<Occurrence>, best: Occurrence) {
    && best in os
    && forall o | o in os ::
         if best.placement == LineStart then o.placement == LineStart ==> best.start <= o.start
         else o.placement != LineStart && best.start <= o.start
  }

  lemma {:induction false} BestIsFirst(os: seq<Occurrence>)
    requires os != [] && Ascending(os) && forall o | o in os :: o.placement != Embedded
    ensures IsFirstPlaced(os, Best(os))
  {
    if |os| > 1 {
      var rest := os[1..];
      assert forall o :: o in os <==> o == os[0] || o in rest by { assert os == [os[0]] + rest; }
      forall o | o in rest ensures os[0].start < o.start {
        var k :| 0 <= k < |rest| && rest[k] == o;
        assert os[k + 1] == o;
      }
      assert Ascending(rest);
      BestIsFirst(rest);
      hide Ascending;
      BestOfTwo(os, rest);
    }
  }

  lemma BestOfTwo(os: seq<Occurrence>, rest: seq<Occurrence>)
    requires |os| > 1 && rest == os[1..] && IsFirstPlaced(rest, Best(rest))
    requires forall o :: o in os <==> o == os[0] || o in rest
    requires forall o | o in os :: o.placement != Embedded
    requires forall o | o in rest :: os[0].start < o.start
    ensures IsFirstPlaced(os, Best(os))
  {
    var b := Best(rest);
    assert Best(os) == if Rank(os[0].placement) <= Rank(b.placement) then os[0] else b;
    assert b in os && os[0] in os;
    hide Best;
  }

  // ----- Positions

  /** A completion without a negation cue, at the start of its line or on the last one. */
  ghost predicate AuthoritativeAt(text: string, negation: string -> bool, p: nat) {
    MentionAt(text, negation, p) && (LineInitial(Hay(text), p) || OnLastLine(text, p))
  }

  ghost predicate LeadsItsLine(text: string, p: nat) { p <= |text| && LineInitial(Hay(text), p) }

  lemma MentionIsListed(text: string, negation: string -> bool, p: nat) returns (o: Occurrence)
    requires MentionAt(text, negation, p)
    ensures o in OccurrencesOf(text, negation) && IsMention(o) && o.start == p
  {
    hide OccursAt, Hay, OccurrencesOf, LineInitial, OnLastLine, Upper;
    HayTokens(text, p);
    o := Listed(text, negation, KComplete, p);
    ListedMeans(text, negation, o);
  }

  lemma ListedPlacement(text: string, negation: string -> bool, o: Occurrence)
    requires o in OccurrencesOf(text, negation) && IsMention(o)
    ensures MentionAt(text, negation, o.start)
    ensures o.placement == LineStart <==> LeadsItsLine(text, o.start)
    ensures IsAuthoritative(o) <==> AuthoritativeAt(text, negation, o.start)
  {
    hide OccursAt, Hay, OccurrencesOf, LineInitial, OnLastLine, Window;
    assert Lists(text, negation, o);
    ListedMeans(text, negation, o);
    ListedMention(text, negation, o);
  }

  ghost predicate Rising(ps: seq<nat>) { forall j, k | 0 <= j < k < |ps| :: ps[j] < ps[k] }

  /** The authoritative completions, from left to right and none missing. */
  ghost predicate ListsAuthoritative(text: string, negation: string -> bool, ps: seq<nat>) {
    Rising(ps) && forall p: nat :: p in ps <==> AuthoritativeAt(text, negation, p)
  }

  /** All completions without a cue, from left to right and none missing. */
  ghost predicate ListsMentions(text: string, negation: string -> bool, ps: seq<nat>) {
    Rising(ps) && forall p: nat :: p in ps <==> MentionAt(text, negation, p)
  }

  lemma StartOfMember(os: seq<Occurrence>, p: nat)
    ensures p in Starts(os) <==> exists o :: o in os && o.start == p
  {
    if p in Starts(os) {
      var k :| 0 <= k < |os| && Starts(os)[k] == p;
      assert os[k] in os;
    }
    forall o | o in os && o.start == p ensures p in Starts(os) {
      var k :| 0 <= k < |os| && os[k] == o;
      assert Starts(os)[k] == p;
    }
  }

  lemma AscendingStarts(os: seq<Occurrence>)
    requires Ascending(os)
    ensures Rising(Starts(os))
  {}

  lemma AuthoritativePositions(text: string, negation: string -> bool)
    ensures ListsAuthoritative(text, negation, Starts(Select(OccurrencesOf(text, negation), IsAuthoritative)))
  {
    SelectionsAscend(text, negation);
    hide OccurrencesOf, AuthoritativeAt, Starts, Ascending, Rising, MentionAt, IsMention;
    var occs := OccurrencesOf(text, negation);
    var os := Select(occs, IsAuthoritative);
    AscendingStarts(os);
    forall p: nat ensures p in Starts(os) <==> AuthoritativeAt(text, negation, p) {
      StartOfMember(os, p);
      if AuthoritativeAt(text, negation, p) {
        AuthoritativeIsMention(text, negation, p);
        var o := MentionIsListed(text, negation, p);
        ListedPlacement(text, negation, o);
        assert o in os;
      }
      forall o | o in os && o.start == p ensures AuthoritativeAt(text, negation, p) {
        AuthoritativeOccurrence(o);
        ListedPlacement(text, negation, o);
      }
    }
  }

  lemma AuthoritativeIsMention(text: string, negation: string -> bool, p: nat)
    requires AuthoritativeAt(text, negation, p)
    ensures MentionAt(text, negation, p)
  {}

  lemma AuthoritativeOccurrence(o: Occurrence)
    requires IsAuthoritative(o)
    ensures IsMention(o)
  {}

  lemma MentionPositions(text: string, negation: string -> bool)
    ensures ListsMentions(text, negation, Starts(Select(OccurrencesOf(text, negation), IsMention)))
  {
    SelectionsAscend(text, negation);
    hide OccurrencesOf, AuthoritativeAt, Starts, Ascending, Rising, MentionAt, IsMention, IsAuthoritative;
    var occs := OccurrencesOf(text, negation);
    var os := Select(occs, IsMention);
    AscendingStarts(os);
    forall p: nat ensures p in Starts(os) <==> MentionAt(text, negation, p) {
      StartOfMember(os, p);
      if MentionAt(text, negation, p) {
        var o := MentionIsListed(text, negation, p);
        assert o in os;
      }
      forall o | o in os && o.start == p ensures MentionAt(text, negation, p) { ListedPlacement(text, negation, o); }
    }
  }

  /** The leftmost authoritative completion at the start of its line; without any, the leftmost
      one on the last line. */
  ghost predicate IsBestPlaced(text: string, negation: string -> bool, p: nat) {
    && AuthoritativeAt(text, negation, p)
    && forall q: nat | AuthoritativeAt(text, negation, q) ::
         if LeadsItsLine(text, p) then LeadsItsLine(text, q) ==> p <= q else !LeadsItsLine(text, q) && p <= q
  }

  lemma BestIsBestPlaced(text: string, negation: string -> bool)
    requires Select(OccurrencesOf(text, negation), IsAuthoritative) != []
    ensures IsBestPlaced(text, negation, Best(Select(OccurrencesOf(text, negation), IsAuthoritative)).start)
  {
    SelectionsAscend(text, negation);
    var occs := OccurrencesOf(text, negation);
    var os := Select(occs, IsAuthoritative);
    assert forall o | o in os :: o.placement != Embedded;
    hide OccurrencesOf, AuthoritativeAt, LeadsItsLine, Ascending, MentionAt, IsMention, IsAuthoritative;
    BestIsFirst(os);
    var best := Best(os);
    AuthoritativeOccurrences(os, occs);
    ListedPlacement(text, negation, best);
    hide Best;
    forall q: nat | AuthoritativeAt(text, negation, q)
      ensures var p := best.start;
              if LeadsItsLine(text, p) then LeadsItsLine(text, q) ==> p <= q else !LeadsItsLine(text, q) && p <= q
    {
      AuthoritativeIsMention(text, negation, q);
      var o := MentionIsListed(text, negation, q);
      ListedPlacement(text, negation, o);
      assert o in os;
    }
  }

  lemma AuthoritativeOccurrences(os: seq<Occurrence>, occs: seq<Occurrence>)
    requires os == Select(occs, IsAuthoritative)
    ensures forall o | o in os :: o in occs && IsMention(o) && IsAuthoritative(o)
  {}

  /** The markers asked for an id, in order: the best placed authoritative completion, then every
      authoritative one from left to right; when none is authoritative, the leftmost completion,
      then every completion from left to right. */
  lemma AskedExactly(text: string, negation: string -> bool)
    ensures var asked := Asked(text, negation);
            if exists p: nat :: AuthoritativeAt(text, negation, p) then
              asked != [] && IsBestPlaced(text, negation, asked[0]) && ListsAuthoritative(text, negation, asked[1..])
            else if exists p: nat :: MentionAt(text, negation, p) then
              |asked| > 1 && asked[0] == asked[1] && ListsMentions(text, negation, asked[1..])
            else asked == []
  {
    var occs := OccurrencesOf(text, negation);
    var authoritative, mentions := Select(occs, IsAuthoritative), Select(occs, IsMention);
    AuthoritativePositions(text, negation);
    MentionPositions(text, negation);
    hide OccurrencesOf, MentionAt, AuthoritativeAt, IsAuthoritative, IsMention, Best, Rising, IsBestPlaced, Select;
    SomeIn(Starts(authoritative));
    SomeIn(Starts(mentions));
    if authoritative != [] {
      BestIsBestPlaced(text, negation);
      StartsOf(Best(authoritative), authoritative);
    } else if mentions != [] {
      StartsOf(mentions[0], mentions);
    }
  }

  lemma SomeIn(ps: seq<nat>)
    ensures ps != [] <==> exists p :: p in ps
  {
    if ps != [] { assert ps[0] in ps; }
  }

  lemma StartsOf(first: Occurrence, os: seq<Occurrence>)
    ensures Starts([first] + os)[0] == first.start && Starts([first] + os)[1..] == Starts(os)
  {}
}
