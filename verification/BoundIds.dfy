/** How far the task id of a completion can be trusted (src/markers.rs). */
module BoundIds {
  import opened Text
  import opened Patterns
  import opened Counters
  import opened TaskLines
  import opened IdSearch
  import opened Markers
  import opened MarkerParse
  import opened Verdicts

  // ----- What a window shows of a line

  /** The first task-id token of a text, bounded on both sides. */
  ghost predicate IsFirstToken(s: string, i: nat, j: nat) {
    IsToken(s, i, j) && forall i': nat, j': nat :: IsToken(s, i', j') ==> i <= i'
  }

  lemma TokenStarts(s: string, i: nat, j: nat)
    requires IsToken(s, i, j)
    ensures i + 3 <= j <= |s| && TokenAt(s, i) && forall k | i + 2 <= k < j :: IsTokenChar(s[k])
  {
    var token := s[i..j];
    assert token[0] == s[i] && token[1] == s[i + 1] && token[2] == s[i + 2];
    assert forall k | i + 2 <= k < j :: s[k] == token[2..][k - i - 2];
  }

  lemma StartedToken(s: string, k: nat)
    requires k < |s| && TokenAt(s, k)
    ensures IsToken(s, k, SkipWhile(IsTokenChar, s, k + 2))
  {
    var e := SkipWhile(IsTokenChar, s, k + 2);
    assert e > k + 2;
    assert s[k..e][2..] == s[k + 2..e];
  }

  lemma FirstTokenIsFound(s: string, i: nat, j: nat)
    requires IsFirstToken(s, i, j)
    ensures FindTaskIdToken(s) == Some(s[i..j])
  {
    FoundTokenIsFirst(s);
    var i': nat, j': nat :| IsToken(s, i', j') && FindTaskIdToken(s).value == s[i'..j'] && i' <= i;
    TokenStarts(s, i, j);
    TokenStarts(s, i', j');
    hide TokenAt, IsTaskIdToken, IsTokenChar;
    assert i' == i && j' == j;
  }

  /** The first `n` characters of a text show its first token whole if it ends there, cut if
      it straddles the end with at least three characters in view, and otherwise no token. */
  lemma WindowShows(s: string, n: nat, i: nat, j: nat)
    requires n <= |s| && IsFirstToken(s, i, j)
    ensures FindTaskIdToken(s[..n]) ==
            if j <= n then Some(s[i..j]) else if i + 3 <= n then Some(s[i..n]) else None
  {
    var w := s[..n];
    TokenStarts(s, i, j);
    forall k: nat | k < n && TokenAt(w, k)
      ensures i <= k
    {
      WindowToken(s, n, k);
      StartedToken(s, k);
    }
    if i + 3 <= n {
      var e := if j <= n then j else n;
      assert w[i..e] == s[i..e] && s[i..j][2..] == s[i + 2..j] && s[i..e][2..] == s[i + 2..e];
      assert IsToken(w, i, e);
      forall i': nat, j': nat | IsToken(w, i', j') ensures i <= i' { TokenStarts(w, i', j'); }
      FirstTokenIsFound(w, i, e);
    } else {
      forall i': nat, j': nat ensures !IsToken(w, i', j') {
        if IsToken(w, i', j') { TokenInView(w, i', j', i); }
      }
      FoundTokenIsFirst(w);
    }
  }

  lemma WindowToken(s: string, n: nat, k: nat)
    requires n <= |s| && k < n && TokenAt(s[..n], k)
    ensures TokenAt(s, k)
  {}

  lemma TokenInView(w: string, i': nat, j': nat, i: nat)
    requires IsToken(w, i', j') && forall k: nat | k < |w| && TokenAt(w, k) :: i <= k
    ensures i + 3 <= |w|
  {
    TokenStarts(w, i', j');
  }

  /** A line without a token shows none in any window. */
  lemma WindowShowsNothing(s: string, n: nat)
    requires n <= |s| && FindTaskIdToken(s) == None
    ensures FindTaskIdToken(s[..n]) == None
  {
    FoundTokenIsFirst(s);
    FoundTokenIsFirst(s[..n]);
    if FindTaskIdToken(s[..n]).Some? {
      var i: nat, j: nat :| IsToken(s[..n], i, j);
      NoTokenInView(s, n, i, j);
    }
  }

  lemma NoTokenInView(s: string, n: nat, i: nat, j: nat)
    requires n <= |s| && IsToken(s[..n], i, j)
    ensures exists i': nat, j': nat :: IsToken(s, i', j')
  {
    TokenStarts(s[..n], i, j);
    WindowToken(s, n, i);
    StartedToken(s, i);
  }

  // ----- Which marker hands out the id, and how much of it

  /** The rest of the line of the marker at `p`, the marker included. */
  function MarkerLineOf(text: string, p: nat): string
    requires p <= |text|
  {
    text[p..SkipWhile(IsNotNewline, text, p)]
  }

  /** The marker and the 120 characters behind it. */
  const VIEW: nat := 136

  function InView(line: string): string { line[..if |line| < VIEW then |line| else VIEW] }

  lemma WindowIsInView(text: string, p: nat)
    requires OccursAt(Upper(text), COMPLETE, p)
    ensures p + 16 <= |text| && text[p..IdWindowEnd(text, p + 16)] == InView(MarkerLineOf(text, p))
  {
    MarkerLine(text, p);
    var e := SkipWhile(IsNotNewline, text, p);
    assert e >= p + 16;
    assert SkipWhile(IsNotNewline, text, p + 16) == e;
  }

  function Starts(os: seq<Occurrence>): (ps: seq<nat>)
    ensures |ps| == |os| && forall k | 0 <= k < |os| :: ps[k] == os[k].start
  {
    seq(|os|, k requires 0 <= k < |os| => os[k].start)
  }

  /** The occurrences asked for an id, in this order: the best placed authoritative one, then
      all of them; without any, the mentions. */
  function AskedOccurrences(occs: seq<Occurrence>): (os: seq<Occurrence>)
    ensures forall o | o in os :: o in occs && IsMention(o)
  {
    var authoritative, mentions := Select(occs, IsAuthoritative), Select(occs, IsMention);
    if authoritative != [] then [Best(authoritative)] + authoritative
    else if mentions != [] then [mentions[0]] + mentions
    else []
  }

  function Asked(text: string, negation: string -> bool): seq<nat> {
    Starts(AskedOccurrences(OccurrencesOf(text, negation)))
  }

  predicate Shows(text: string, p: nat) {
    p <= |text| && FindTaskIdToken(InView(MarkerLineOf(text, p))).Some?
  }

  /** The first marker asked in whose view an id begins. */
  predicate HandsOut(text: string, negation: string -> bool, k: nat) {
    var asked := Asked(text, negation);
    k < |asked| && Shows(text, asked[k]) && forall j | 0 <= j < k :: !Shows(text, asked[j])
  }

  lemma AskedOccurrence(text: string, negation: string -> bool, o: Occurrence)
    requires o in OccurrencesOf(text, negation) && IsMention(o)
    ensures MentionAt(text, negation, o.start) && o.start <= |text|
    ensures BoundTaskId(text, o) == FindTaskIdToken(InView(MarkerLineOf(text, o.start)))
  {
    hide OccurrencesOf, FindTaskIdToken, InView, MarkerLineOf, IdWindowEnd, OccursAt, Window, Hay;
    assert Lists(text, negation, o);
    ListedMention(text, negation, o);
    WindowIsInView(text, o.start);
  }

  lemma {:induction false} FirstBoundIs(text: string, os: seq<Occurrence>, k: nat)
    requires k <= |os| && forall j | 0 <= j < k :: BoundTaskId(text, os[j]) == None
    ensures if k < |os| then BoundTaskId(text, os[k]).Some? ==> FirstBoundTaskId(text, os) == BoundTaskId(text, os[k])
            else FirstBoundTaskId(text, os) == None
    decreases k
  {
    hide BoundTaskId;
    if k > 0 { FirstBoundIs(text, os[1..], k - 1); }
  }

  lemma CompleteBinds(text: string, best: Occurrence, os: seq<Occurrence>)
    ensures CompleteWith(text, best, os) == Complete(FirstBoundTaskId(text, [best] + os))
  {
    hide BoundTaskId;
    assert ([best] + os)[1..] == os;
  }

  lemma VerdictBinds(text: string, occs: seq<Occurrence>)
    requires Verdict(text, occs).Some? && Verdict(text, occs).value.Complete?
    ensures Verdict(text, occs) == Some(Complete(FirstBoundTaskId(text, AskedOccurrences(occs))))
  {
    hide CompleteWith, FirstBoundTaskId, IsHardFailure, IsAuthoritative, IsMention;
    var authoritative, mentions := Select(occs, IsAuthoritative), Select(occs, IsMention);
    if authoritative != [] {
      CompleteBinds(text, Best(authoritative), authoritative);
    } else {
      CompleteBinds(text, mentions[0], mentions);
    }
  }

  ghost function IdInView(text: string, p: nat): Option<string>
    requires p <= |text|
  {
    FindTaskIdToken(InView(MarkerLineOf(text, p)))
  }

  /** What the `k`-th candidate says, by its position alone. */
  lemma AskedShows(text: string, negation: string -> bool, k: nat)
    requires k < |Asked(text, negation)|
    ensures var os, p := AskedOccurrences(OccurrencesOf(text, negation)), Asked(text, negation)[k];
            && MentionAt(text, negation, p) && p <= |text| && |os| == |Asked(text, negation)|
            && BoundTaskId(text, os[k]) == IdInView(text, p)
            && (Shows(text, p) <==> BoundTaskId(text, os[k]).Some?)
  {
    var os := AskedOccurrences(OccurrencesOf(text, negation));
    assert os[k] in os;
    hide OccurrencesOf, AskedOccurrences, BoundTaskId, FindTaskIdToken, InView, MarkerLineOf, MentionAt;
    AskedOccurrence(text, negation, os[k]);
  }

  lemma HandedOut(text: string, negation: string -> bool, k: nat)
    requires HandsOut(text, negation, k)
    ensures var os := AskedOccurrences(OccurrencesOf(text, negation));
            FirstBoundTaskId(text, os) == IdInView(text, Asked(text, negation)[k])
  {
    var os := AskedOccurrences(OccurrencesOf(text, negation));
    hide OccurrencesOf, AskedOccurrences, BoundTaskId, FirstBoundTaskId, IdInView, MentionAt, Shows, Asked;
    AskedShows(text, negation, k);
    forall j | 0 <= j < k ensures BoundTaskId(text, os[j]) == None { AskedShows(text, negation, j); }
    FirstBoundIs(text, os, k);
  }

  lemma NothingHandedOut(text: string, negation: string -> bool)
    requires forall k | 0 <= k < |Asked(text, negation)| :: !Shows(text, Asked(text, negation)[k])
    ensures FirstBoundTaskId(text, AskedOccurrences(OccurrencesOf(text, negation))) == None
  {
    var os := AskedOccurrences(OccurrencesOf(text, negation));
    assert |os| == |Asked(text, negation)|;
    hide OccurrencesOf, AskedOccurrences, BoundTaskId, FirstBoundTaskId, IdInView, MentionAt, Shows, Asked;
    forall j | 0 <= j < |os| ensures BoundTaskId(text, os[j]) == None { AskedShows(text, negation, j); }
    FirstBoundIs(text, os, |os|);
  }

  /** A completion carries no id exactly when no marker asked shows one; otherwise it carries
      what the first marker that shows one has in view. */
  lemma CompletionBindsExactly(text: string, negation: string -> bool, taskId: Option<string>)
    requires Parse(text, negation) == Some(Complete(taskId))
    ensures taskId == None <==> forall k | 0 <= k < |Asked(text, negation)| :: !Shows(text, Asked(text, negation)[k])
    ensures forall k: nat | HandsOut(text, negation, k) :: taskId == IdInView(text, Asked(text, negation)[k])
  {
    VerdictBinds(text, OccurrencesOf(text, negation));
    assert taskId == FirstBoundTaskId(text, AskedOccurrences(OccurrencesOf(text, negation)));
    hide OccurrencesOf, AskedOccurrences, FirstBoundTaskId, Shows, Asked, Parse, Verdict, IdInView;
    forall k: nat | HandsOut(text, negation, k)
      ensures taskId == IdInView(text, Asked(text, negation)[k])
    {
      HandedOut(text, negation, k);
    }
    if forall k | 0 <= k < |Asked(text, negation)| :: !Shows(text, Asked(text, negation)[k]) {
      NothingHandedOut(text, negation);
    } else {
      var k := FirstToShow(text, negation, |Asked(text, negation)|);
      ShownIsSome(text, negation, k);
    }
  }

  lemma ShownIsSome(text: string, negation: string -> bool, k: nat)
    requires HandsOut(text, negation, k)
    ensures IdInView(text, Asked(text, negation)[k]).Some?
  {
    hide Asked, FindTaskIdToken, InView, MarkerLineOf;
  }

  lemma {:induction false} FirstToShow(text: string, negation: string -> bool, n: nat) returns (k: nat)
    requires n <= |Asked(text, negation)| && exists j | 0 <= j < n :: Shows(text, Asked(text, negation)[j])
    ensures HandsOut(text, negation, k)
  {
    hide Shows, Asked;
    if j :| 0 <= j < n - 1 && Shows(text, Asked(text, negation)[j]) {
      k := FirstToShow(text, negation, n - 1);
    } else {
      k := n - 1;
    }
  }

  /** The id handed out is the first token of its marker's line, cut at the end of the view: it
      is the whole token exactly when the token ends within 120 characters of the marker. */
  lemma BoundIdIsWholeExactlyWhen(text: string, negation: string -> bool, id: string, k: nat, i: nat, j: nat)
    requires Parse(text, negation) == Some(Complete(Some(id))) && HandsOut(text, negation, k)
    requires IsFirstToken(MarkerLineOf(text, Asked(text, negation)[k]), i, j)
    ensures var line := MarkerLineOf(text, Asked(text, negation)[k]);
            && i + 3 <= VIEW
            && id == line[i..if j <= VIEW then j else VIEW]
            && (id == line[i..j] <==> j <= VIEW)
  {
    var line := MarkerLineOf(text, Asked(text, negation)[k]);
    CompletionBindsExactly(text, negation, Some(id));
    TokenStarts(line, i, j);
    var n := if |line| < VIEW then |line| else VIEW;
    WindowShows(line, n, i, j);
    hide Asked, Parse, FindTaskIdToken, MarkerLineOf, IsToken;
  }

  /** Every id handed out comes with such a marker and such a token. */
  lemma BoundIdHasAToken(text: string, negation: string -> bool, id: string)
    requires Parse(text, negation) == Some(Complete(Some(id)))
    ensures exists k: nat, i: nat, j: nat ::
              HandsOut(text, negation, k) && IsFirstToken(MarkerLineOf(text, Asked(text, negation)[k]), i, j)
  {
    hide Parse, FindTaskIdToken, MarkerLineOf, IsToken, Shows, Asked;
    CompletionBindsExactly(text, negation, Some(id));
    var k := FirstToShow(text, negation, |Asked(text, negation)|);
    ShownLineHasAToken(text, Asked(text, negation)[k]);
  }

  lemma ShownLineHasAToken(text: string, p: nat)
    requires Shows(text, p)
    ensures p <= |text| && exists i: nat, j: nat :: IsFirstToken(MarkerLineOf(text, p), i, j)
  {
    hide FindTaskIdToken, MarkerLineOf, IsToken;
    var line := MarkerLineOf(text, p);
    FoundTokenIsFirst(line);
    if FindTaskIdToken(line) == None {
      WindowShowsNothing(line, if |line| < VIEW then |line| else VIEW);
    } else {
      var i: nat, j: nat :| IsToken(line, i, j) && forall i': nat, j': nat :: IsToken(line, i', j') ==> i <= i';
      assert IsFirstToken(line, i, j);
    }
  }

  // ----- A line that is too long

  /** A marker, 117 blanks and the id `t-10`. */
  ghost predicate IsLongMarkerLine(text: string, pad: string) {
    |pad| == 117 && All(IsBlank, pad) && text == COMPLETE + pad + "t-10"
  }

  lemma LongLineCharacters(text: string, pad: string)
    requires IsLongMarkerLine(text, pad)
    ensures |text| == 137 && text[133] == 't' && text[134] == '-' && text[135] == '1' && text[136] == '0'
    ensures forall k | 0 <= k < 16 :: text[k] == COMPLETE[k]
    ensures forall k | 16 <= k < 133 :: IsBlank(text[k])
    ensures forall k | 0 <= k < 133 :: text[k] != 't' && text[k] != '-' && text[k] != '\n'
    ensures !Has(Upper(text), 'F') && !Has(Upper(text), 'R')
    ensures forall k | 16 <= k < 137 :: UpperChar(text[k]) != 'M'
  {
    MarkerFacts();
    var id := "t-10";
    assert forall k | 133 <= k < 137 :: text[k] == id[k - 133];
    assert forall k | 16 <= k < 133 :: text[k] == pad[k - 16];
    assert forall k | 0 <= k < 16 :: 'A' <= COMPLETE[k] <= 'Z' || COMPLETE[k] == ' ';
    assert forall k | 0 <= k < 16 :: COMPLETE[k] != 'F' && COMPLETE[k] != 'R';
  }

  lemma LongLineWindow(text: string, pad: string)
    requires IsLongMarkerLine(text, pad)
    ensures IdWindowEnd(text, 16) == 136
    ensures FindTaskIdToken(text[0..136]) == Some("t-1")
  {
    LongLineCharacters(text, pad);
    var w, id := text[0..136], "t-1";
    assert forall k | 0 <= k < 136 :: w[k] == text[k];
    assert w[133..136] == id;
    assert IsToken(w, 133, 136) by {
      assert id[2..] == ['1'];
      assert !IsTokenChar(w[132]);
    }
    FoundTokenIsFirst(w);
    var i: nat, j: nat :| IsToken(w, i, j) && FindTaskIdToken(w).value == w[i..j] && i <= 133;
    var found := w[i..j];
    assert found[1] == w[i + 1] && found[1] == '-';
    assert i == 133 && j == 136;
  }

  lemma MarkerHead(u: string, i: nat)
    requires OccursAt(u, COMPLETE, 0) && OccursAt(u, COMPLETE, i)
    ensures i == 0 || (16 <= i < |u| && u[i] == 'M')
  {
    MarkersDoNotSelfOverlap();
    MarkerFacts();
    if i < 16 { SelfOccurrencesApart(u, COMPLETE, 0, i); }
    CharAt(u, COMPLETE, i, 0);
  }

  lemma LongLineMarker(text: string, pad: string, i: nat)
    requires IsLongMarkerLine(text, pad)
    ensures OccursAt(Upper(text), COMPLETE, i) <==> i == 0
  {
    LongLineCharacters(text, pad);
    MarkerFacts();
    var u := Upper(text);
    assert forall k | 0 <= k < 16 :: u[k] == COMPLETE[k] by {
      assert forall k | 0 <= k < 16 :: 'A' <= COMPLETE[k] <= 'Z' || COMPLETE[k] == ' ';
    }
    assert OccursAt(u, COMPLETE, 0);
    if OccursAt(u, COMPLETE, i) { MarkerHead(u, i); }
  }

  lemma LongLineIsComplete(text: string, pad: string, negation: string -> bool)
    requires IsLongMarkerLine(text, pad) && !negation([])
    ensures Parse(text, negation).Some? && Parse(text, negation).value.Complete?
  {
    LongLineCharacters(text, pad);
    MarkerFacts();
    LongLineMarker(text, pad, 0);
    var u, hay := Upper(text), Hay(text);
    forall i: nat ensures !OccursAt(u, FAILED, i) && !OccursAt(u, REPLAN, i) {
      ForeignHeadDoesNotOccur(u, FAILED, i);
      ForeignHeadDoesNotOccur(u, REPLAN, i);
    }
    assert Window(hay, 0) == [];
    assert hay[0..0] == [];
    hide OccursAt;
    assert MentionAt(text, negation, 0) && LineInitial(hay, 0);
    hide MentionAt, LineInitial, OnLastLine, Parse, VerdictShaped, Hay, BenignAt;
    assert !HasReplan(text) && !HasHardFailed(text) && HasAuthoritative(text, negation);
    CompleteExactlyWhen(text, negation);
  }

  /** On a longer line the id can be cut: `t-1` is handed out although the text names no such
      task, only `t-10`. */
  lemma LongMarkerLineCutsTheId(text: string, pad: string, negation: string -> bool)
    requires IsLongMarkerLine(text, pad) && !negation([])
    ensures Parse(text, negation) == Some(Complete(Some("t-1")))
    ensures forall i: nat, j: nat :: IsToken(text, i, j) ==> text[i..j] == "t-10"
  {
    hide *;
    LongLineIsComplete(text, pad, negation);
    LongLineBindings(text, pad, negation);
    LongLineTokens(text, pad);
  }

  lemma LongLineTokens(text: string, pad: string)
    requires IsLongMarkerLine(text, pad)
    ensures forall i: nat, j: nat :: IsToken(text, i, j) ==> text[i..j] == "t-10"
  {
    LongLineCharacters(text, pad);
    hide IsLongMarkerLine, Upper, Has;
    forall i: nat, j: nat | IsToken(text, i, j) ensures text[i..j] == "t-10" {
      var found := text[i..j];
      assert found[1] == text[i + 1] && found[1] == '-';
      assert i == 133 && j == 137;
    }
  }

  lemma LongLineBindings(text: string, pad: string, negation: string -> bool)
    requires IsLongMarkerLine(text, pad) && Parse(text, negation).Some? && Parse(text, negation).value.Complete?
    ensures Parse(text, negation) == Some(Complete(Some("t-1")))
  {
    hide OccurrencesOf, BoundTaskId, Verdict, IsLongMarkerLine, IsMention;
    var occs := OccurrencesOf(text, negation);
    forall o | o in occs && IsMention(o)
      ensures BoundTaskId(text, o) == Some("t-1")
    {
      LongLineBinding(text, pad, negation, o);
    }
    MentionsAgree(text, occs, "t-1");
  }

  lemma LongLineBinding(text: string, pad: string, negation: string -> bool, o: Occurrence)
    requires IsLongMarkerLine(text, pad) && o in OccurrencesOf(text, negation) && IsMention(o)
    ensures BoundTaskId(text, o) == Some("t-1")
  {
    hide OccurrencesOf, IsLongMarkerLine, OccursAt, IdWindowEnd, FindTaskIdToken, Upper, Window, Hay;
    assert Lists(text, negation, o);
    ListedMention(text, negation, o);
    LongLineMarker(text, pad, o.start);
    LongLineWindow(text, pad);
  }

  lemma MentionsAgree(text: string, occs: seq<Occurrence>, id: string)
    requires Verdict(text, occs).Some? && Verdict(text, occs).value.Complete?
    requires forall o | o in occs && IsMention(o) :: BoundTaskId(text, o) == Some(id)
    ensures Verdict(text, occs) == Some(Complete(Some(id)))
  {
    hide BoundTaskId, IsHardFailure;
    var authoritative, mentions := Select(occs, IsAuthoritative), Select(occs, IsMention);
    assert authoritative != [] ==> Best(authoritative) in authoritative;
    assert mentions != [] ==> mentions[0] in mentions;
  }
}
