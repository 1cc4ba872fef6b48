/** Which counts the benign counter phrases stand for (src/markers.rs). */
module CounterValues {
  import opened Text
  import opened Patterns
  import opened Counters
  import opened Markers
  import opened MarkerParse

  predicate IsDigit(c: char) { '0' <= c <= '9' }

  function DigitValue(c: char): nat
    requires IsDigit(c)
  {
    c as int - '0' as int
  }

  /** The number whose digits end at `e`; 0 when there is none. */
  function NumberBefore(u: string, e: nat): nat
    requires e <= |u|
  {
    if e == 0 || !IsDigit(u[e - 1]) then 0 else 10 * NumberBefore(u, e - 1) + DigitValue(u[e - 1])
  }

  /** What a counter phrase says behind its number. */
  const TAILS: seq<string> := [" TESTS FAILED", " TEST FAILED", " FAILED"]

  /** The `FAILED` at `j` ends a count: a number, then the `n`-th tail. */
  predicate CountedAt(u: string, j: nat, n: nat) {
    && n < 3 && j + 7 > |TAILS[n]|
    && var e := j + 6 - |TAILS[n]|;
    0 < e <= |u| && IsDigit(u[e - 1]) && OccursAt(u, TAILS[n], e)
  }

  /** The number in front of the tail. */
  function CountOf(u: string, j: nat, n: nat): nat
    requires CountedAt(u, j, n)
  {
    NumberBefore(u, j + 6 - |TAILS[n]|)
  }

  lemma PhraseIsZeroAndTail(n: nat)
    requires n < 3
    ensures |COUNTERS| == 3 && COUNTERS[n] == ['0'] + TAILS[n] && |TAILS[n]| >= 7
    ensures TAILS[n][|TAILS[n]| - 6..] == FAILED
  {
    var tests, test, zero := " TESTS FAILED", " TEST FAILED", " FAILED";
    assert tests[7..] == FAILED && test[6..] == FAILED && zero[1..] == FAILED;
  }

  lemma PhraseOccurs(u: string, n: nat, i: nat)
    requires n < 3
    ensures OccursAt(u, COUNTERS[n], i) <==> i < |u| && u[i] == '0' && OccursAt(u, TAILS[n], i + 1)
  {
    PhraseIsZeroAndTail(n);
    var c, t := COUNTERS[n], TAILS[n];
    if OccursAt(u, c, i) {
      assert u[i + 0] == c[0];
      forall k | 0 <= k < |t| ensures u[i + 1 + k] == t[k] { assert u[i + (k + 1)] == c[k + 1]; }
    }
    if i < |u| && u[i] == '0' && OccursAt(u, t, i + 1) {
      forall k | 0 <= k < |c| ensures u[i + k] == c[k] {
        if k > 0 { assert u[i + 1 + (k - 1)] == t[k - 1]; }
      }
    }
  }

  lemma LastDigitDecides(u: string, e: nat)
    requires 0 < e <= |u| && IsDigit(u[e - 1])
    ensures NumberBefore(u, e) % 10 == 0 <==> u[e - 1] == '0'
  {}

  lemma CountedTail(u: string, j: nat, n: nat)
    requires n < 3
    ensures j + 6 >= |COUNTERS[n]| && OccursAt(u, COUNTERS[n], j + 6 - |COUNTERS[n]|)
            <==> CountedAt(u, j, n) && CountOf(u, j, n) % 10 == 0
  {
    PhraseIsZeroAndTail(n);
    hide NumberBefore, OccursAt;
    if j + 6 >= |COUNTERS[n]| {
      PhraseOccurs(u, n, j + 6 - |COUNTERS[n]|);
    }
    if CountedAt(u, j, n) { LastDigitDecides(u, j + 6 - |TAILS[n]|); }
    assert IsDigit('0');
  }

  /** A `FAILED` is exempt exactly when the count it ends is divisible by ten: the phrases look
      at the last digit only. */
  lemma BenignExactlyWhen(u: string, j: nat)
    ensures BenignAt(u, j) <==> exists n: nat :: CountedAt(u, j, n) && CountOf(u, j, n) % 10 == 0
  {
    forall n: nat | n < 3
      ensures j + 6 >= |COUNTERS[n]| && OccursAt(u, COUNTERS[n], j + 6 - |COUNTERS[n]|)
              <==> CountedAt(u, j, n) && CountOf(u, j, n) % 10 == 0
    {
      CountedTail(u, j, n);
    }
    PhraseIsZeroAndTail(0);
    hide CountOf, OccursAt, NumberBefore;
  }

  /** A `FAILED` ends at most one count. */
  lemma CountIsUnique(u: string, j: nat, m: nat, n: nat)
    requires CountedAt(u, j, m) && CountedAt(u, j, n)
    ensures m == n
  {
    var tests, test, zero := " TESTS FAILED", " TEST FAILED", " FAILED";
    assert TAILS[0] == tests && TAILS[1] == test && TAILS[2] == zero;
    assert |tests| == 13 && |test| == 12 && |zero| == 7;
    assert tests[5] == 'S' && test[4] == 'T' && tests[4] == 'T' && tests[0] == test[0] == ' ';
    if m == 0 || n == 0 { assert OccursAt(u, tests, j - 7); assert u[j - 7 + 5] == 'S' && u[j - 7 + 0] == ' '; }
    if m == 1 || n == 1 { assert OccursAt(u, test, j - 6); assert u[j - 6 + 4] == 'T'; }
  }

  /** The documented exemption: a count of zero. */
  ghost predicate ZeroCountAt(u: string, j: nat) { exists n: nat :: CountedAt(u, j, n) && CountOf(u, j, n) == 0 }

  /** A round count: divisible by ten, but not zero. */
  ghost predicate RoundCountAt(u: string, j: nat) {
    exists n: nat :: CountedAt(u, j, n) && CountOf(u, j, n) % 10 == 0 && CountOf(u, j, n) != 0
  }

  /** The exemption meets its purpose, to leave out counts of zero, exactly for a `FAILED` that
      does not end a round count. */
  lemma ExemptAsIntendedExactlyWhen(u: string, j: nat)
    ensures (BenignAt(u, j) <==> ZeroCountAt(u, j)) <==> !RoundCountAt(u, j)
  {
    BenignExactlyWhen(u, j);
    hide BenignAt, CountOf, CountedAt;
    forall m: nat, n: nat | CountedAt(u, j, m) && CountedAt(u, j, n) ensures m == n { CountIsUnique(u, j, m, n); }
  }

  /** By its digits: a count is zero exactly when all of them are. */
  lemma {:induction false} ZeroExactlyWhen(u: string, e: nat)
    requires e <= |u|
    ensures NumberBefore(u, e) == 0 <==> forall k | SkipBack(IsDigit, u, e) <= k < e :: u[k] == '0'
  {
    if e > 0 && IsDigit(u[e - 1]) {
      ZeroExactlyWhen(u, e - 1);
      assert SkipBack(IsDigit, u, e) == SkipBack(IsDigit, u, e - 1);
    }
  }

  // ----- Round counts are not reported

  lemma RoundCountText(digits: string)
    requires All(IsDigit, digits)
    ensures var text := digits + "0 FAILED";
            && Upper(text) == text && text[..|digits| + 2] == digits + "0 " && |text| == |digits| + 8
            && forall k | 0 <= k < |digits| + 2 :: IsDigit(text[k]) || text[k] == ' '
  {
    var rest := "0 FAILED";
    var text := digits + rest;
    assert forall k | |digits| <= k < |text| :: text[k] == rest[k - |digits|];
    assert rest[0] == '0' && rest[1] == ' ';
  }

  lemma RoundCountFailed(digits: string, j: nat)
    requires All(IsDigit, digits)
    ensures !Standing(Upper(digits + "0 FAILED"), j)
  {
    var rest := "0 FAILED";
    var text := digits + rest;
    RoundCountText(digits);
    if OccursAt(Upper(text), FAILED, j) {
      OnlyFailedAtTheEnd(digits, j);
      PhraseIsZeroAndTail(2);
      assert OccursAt(text, COUNTERS[2], j + 6 - |COUNTERS[2]|);
    }
  }

  lemma OnlyFailedAtTheEnd(digits: string, j: nat)
    requires All(IsDigit, digits) && OccursAt(digits + "0 FAILED", FAILED, j)
    ensures j == |digits| + 2
  {
    RoundCountText(digits);
    FailedHeadIsUnique();
    CharAt(digits + "0 FAILED", FAILED, j, 0);
    OccurrenceFits(digits + "0 FAILED", FAILED, j);
  }

  lemma RoundCountHasNo(digits: string, w: string, i: nat)
    requires All(IsDigit, digits) && (w == COMPLETE || w == REPLAN)
    ensures !OccursAt(Upper(digits + "0 FAILED"), w, i)
  {
    RoundCountText(digits);
    MarkerFacts();
    var text, rest := digits + "0 FAILED", "0 FAILED";
    assert forall k | |digits| <= k < |text| :: text[k] == rest[k - |digits|];
    assert !Has(rest, 'M') && !Has(rest, 'R');
    ForeignHeadDoesNotOccur(text, w, i);
  }

  /** However many failures a round count reports, its text is no verdict: `10 FAILED` is not
      a failure. */
  lemma RoundCountIsNoVerdict(digits: string, negation: string -> bool)
    requires All(IsDigit, digits)
    ensures Parse(digits + "0 FAILED", negation) == None
  {
    hide Standing, OccursAt, Upper, LineInitial, OnLastLine, VerdictShaped, Window, Hay, Parse;
    var text := digits + "0 FAILED";
    ParseIsTheTable(text, negation);
    RoundCountShowsNothing(digits, negation);
    hide *;
    NoRowNoVerdict(text, negation);
  }

  lemma RoundCountShowsNothing(digits: string, negation: string -> bool)
    requires All(IsDigit, digits)
    ensures var text := digits + "0 FAILED";
            && !HasReplan(text) && !HasHardFailed(text) && !SomeStanding(Upper(text))
            && !HasAuthoritative(text, negation) && !HasMention(text, negation)
  {
    hide Standing, OccursAt, Upper, LineInitial, OnLastLine, VerdictShaped, Window, Hay;
    var text := digits + "0 FAILED";
    forall i: nat
      ensures !Standing(Upper(text), i) && !OccursAt(Upper(text), REPLAN, i) && !OccursAt(Upper(text), COMPLETE, i)
    {
      RoundCountFailed(digits, i);
      RoundCountHasNo(digits, REPLAN, i);
      RoundCountHasNo(digits, COMPLETE, i);
    }
  }

  lemma NoRowNoVerdict(text: string, negation: string -> bool)
    requires IsTableVerdict(text, negation, Parse(text, negation))
    requires !HasReplan(text) && !HasHardFailed(text) && !SomeStanding(Upper(text))
    requires !HasAuthoritative(text, negation) && !HasMention(text, negation)
    ensures Parse(text, negation) == None
  {
    hide Parse, HasReplan, HasHardFailed, SomeStanding, HasAuthoritative, HasMention;
  }

  lemma TenFailedIsNoVerdict(negation: string -> bool)
    ensures Parse("10 FAILED", negation) == None
    ensures RoundCountAt(Upper("10 FAILED"), 3)
  {
    hide Parse, RoundCountAt;
    RoundCountIsNoVerdict("1", negation);
    assert "1" + "0 FAILED" == "10 FAILED";
    TenIsRound();
  }

  lemma TenIsRound()
    ensures RoundCountAt(Upper("10 FAILED"), 3)
  {
    RoundCountText("1");
    var u := "1" + "0 FAILED";
    assert "10 FAILED" == u;
    PhraseIsZeroAndTail(2);
    assert CountedAt(u, 3, 2);
    assert NumberBefore(u, 1) == 1;
    assert CountOf(u, 3, 2) == 10;
  }
}
