/** Which texts are recognized as revoked (src/markers.rs). */
module RevokedRecognition {
  import opened Text
  import opened Patterns
  import opened Counters
  import opened Markers
  import opened Revocation

  /** `REVOKED`, in any casing, at the start of its line and not glued to a longer word. */
  ghost predicate RevokedAt(alphanumeric: char -> bool, text: string, p: nat) {
    var upper := Upper(text);
    && p + 7 <= |upper| && upper[p..p + 7] == "REVOKED" && LineInitial(upper, p)
    && (p + 7 < |upper| ==> !alphanumeric(upper[p + 7]) && upper[p + 7] != '_')
  }

  lemma TokenExactly(upper: string, p: nat)
    ensures OccursAt(upper, REVOKED, p) <==> p + 7 <= |upper| && upper[p..p + 7] == "REVOKED"
  {
    MarkerFacts();
    if OccursAt(upper, REVOKED, p) { assert upper[p..p + 7] == REVOKED; }
    if p + 7 <= |upper| && upper[p..p + 7] == "REVOKED" {
      forall k | 0 <= k < 7 ensures upper[p + k] == REVOKED[k] { assert upper[p..p + 7][k] == upper[p + k]; }
    }
  }

  lemma PlacedExactly(upper: string, p: nat)
    requires OccursAt(upper, REVOKED, p)
    ensures p < |upper| && (PlacementOf(p, LineMapOf(upper), upper) == LineStart <==> LineInitial(upper, p))
  {
    MarkerFacts();
    assert upper[p + 0] == REVOKED[0];
    PlacementMeans(upper, upper, p);
    hide OccursAt, LineMapOf, PlacementOf, LineInitial, OnLastLine;
  }

  /** What the scan asks of each match. */
  ghost predicate Counts(alphanumeric: char -> bool, upper: string, p: nat) {
    && p <= |upper| && PlacementOf(p, LineMapOf(upper), upper) == LineStart
    && WholeToken(alphanumeric, upper, p + |REVOKED|)
  }

  lemma CountsExactly(alphanumeric: char -> bool, text: string, p: nat)
    ensures OccursAt(Upper(text), REVOKED, p) && Counts(alphanumeric, Upper(text), p)
            <==> RevokedAt(alphanumeric, text, p)
  {
    var upper := Upper(text);
    TokenExactly(upper, p);
    MarkerFacts();
    hide Upper, LineMapOf, PlacementOf, LineInitial, OccursAt;
    if OccursAt(upper, REVOKED, p) { PlacedExactly(upper, p); }
  }

  lemma ScanCounts(alphanumeric: char -> bool, text: string)
    ensures HasRevocationMarker(alphanumeric, text) <==>
            && !Contains(Upper(text), COMPLETE)
            && exists p: nat :: p in FindAll(Upper(text), REVOKED, 0) && Counts(alphanumeric, Upper(text), p)
  {
    var ps := FindAll(Upper(text), REVOKED, 0);
    hide Upper, Contains, LineMapOf, PlacementOf, FindAll, WholeToken;
    forall p: nat | p in ps && Counts(alphanumeric, Upper(text), p)
      ensures exists k | 0 <= k < |ps| :: Counts(alphanumeric, Upper(text), ps[k])
    {
      var k :| 0 <= k < |ps| && ps[k] == p;
    }
    forall k | 0 <= k < |ps| ensures ps[k] in ps {}
  }

  /** A text counts as revoked exactly when it spells no completion and some `REVOKED` stands like
      that. */
  lemma RecognizedExactlyWhen(alphanumeric: char -> bool, text: string)
    ensures HasRevocationMarker(alphanumeric, text) <==>
            !Contains(Upper(text), COMPLETE) && exists p: nat :: RevokedAt(alphanumeric, text, p)
  {
    ScanCounts(alphanumeric, text);
    MarkerFacts();
    MarkersDoNotSelfOverlap();
    FindAllIsExact(Upper(text), REVOKED);
    hide Upper, Contains, OccursAt, FindAll, NoSelfOverlap, HasRevocationMarker, Counts, RevokedAt;
    forall p: nat
      ensures OccursAt(Upper(text), REVOKED, p) && Counts(alphanumeric, Upper(text), p)
              <==> RevokedAt(alphanumeric, text, p)
    {
      CountsExactly(alphanumeric, text, p);
    }
  }
}
