/** The head of a task line as a regular expression, and the deterministic scan that
    recognizes exactly it (src/plan_parse.rs). */
module HeadGrammar {
  import opened Text
  import opened TaskLines

  /** `[ \t]*` */
  ghost predicate AreBlanks(line: string, i: nat, j: nat) {
    i <= j <= |line| && forall n | i <= n < j :: line[n] == ' ' || line[n] == '\t'
  }

  /** `\d*` */
  ghost predicate AreDigits(line: string, i: nat, j: nat) {
    i <= j <= |line| && forall n | i <= n < j :: IsDecimalDigit(line[n])
  }

  const DIGITS: string := "0123456789"

  /** A digit is one of the usual ten, or outside ASCII one of the ten after a zero. */
  lemma DigitsExactly(c: char)
    ensures IsAscii(c) ==> (IsDecimalDigit(c) <==> c in DIGITS)
    ensures !IsAscii(c) ==> (IsDecimalDigit(c) <==> exists zero :: zero in DECIMAL_ZEROS && 0 <= c as int - zero <= 9)
  {
    hide DECIMAL_ZEROS;
    assert forall k | 0 <= k < 10 :: DIGITS[k] as int == 0x30 + k;
    if '0' <= c <= '9' { assert DIGITS[c as int - 0x30] == c; }
  }

  /** `(>[ \t]*)*` */
  ghost predicate IsQuotes(line: string, i: nat, j: nat) {
    && i <= j <= |line| && (forall n | i <= n < j :: line[n] == '>' || line[n] == ' ' || line[n] == '\t')
    && (i < j ==> line[i] == '>')
  }

  /** `([-*+]|\d+[.)])?` */
  ghost predicate IsMarker(line: string, j: nat, k: nat) {
    && j <= k <= |line|
    && (|| j == k
        || (k == j + 1 && (line[j] == '-' || line[j] == '*' || line[j] == '+'))
        || (k >= j + 2 && AreDigits(line, j, k - 1) && (line[k - 1] == '.' || line[k - 1] == ')')))
  }

  /** `\[[ \t]*[xX]?[ \t]*\]` or the same in round brackets; the tick, if any, is
      `line[m..n]`. */
  ghost predicate IsBoxWith(line: string, b: nat, e: nat, m: nat, n: nat) {
    && b + 1 <= m <= n <= m + 1 && n < e <= |line|
    && ((line[b] == '[' && line[e - 1] == ']') || (line[b] == '(' && line[e - 1] == ')'))
    && AreBlanks(line, b + 1, m) && (m < n ==> line[m] == 'x' || line[m] == 'X') && AreBlanks(line, n, e - 1)
  }

  /** The whole head: blanks, quotes, marker, blanks, box. */
  ghost predicate IsHead(line: string, i: nat, j: nat, k: nat, b: nat, e: nat) {
    && AreBlanks(line, 0, i) && IsQuotes(line, i, j) && IsMarker(line, j, k) && AreBlanks(line, k, b)
    && exists m: nat, n: nat :: IsBoxWith(line, b, e, m, n)
  }

  lemma BoxRecognized(line: string, b: nat, e: nat, m: nat, n: nat)
    requires IsBoxWith(line, b, e, m, n)
    ensures BoxEnd(line, b) == Some(e)
  {
    if m < n {
      RunEndsUnique(IsBlank, line, b + 1, m);
    } else {
      RunEndsUnique(IsBlank, line, b + 1, e - 1);
    }
    RunEndsUnique(IsBlank, line, n, e - 1);
    RunEndsUnique(IsBlank, line, e - 1, e - 1);
  }

  lemma BoxSound(line: string, b: nat, e: nat)
    requires b <= |line| && BoxEnd(line, b) == Some(e)
    ensures exists m: nat, n: nat :: IsBoxWith(line, b, e, m, n)
  {
    var i := SkipWhile(IsBlank, line, b + 1);
    assert IsBoxWith(line, b, e, i, if i < |line| && IsTick(line[i]) then i + 1 else i);
  }

  /** A box that follows blanks ends the search at its own position. */
  lemma BlanksThenBox(line: string, k: nat, b: nat)
    requires AreBlanks(line, k, b) && b < |line| && IsOpener(line[b])
    ensures SkipWhile(IsBlank, line, k) == b
  {
    RunEndsUnique(IsBlank, line, k, b);
  }

  /** Without block quotes or a marker in front of it, a box is found directly. */
  lemma NoQuotesNoMarker(line: string, b: nat)
    requires b < |line| && IsOpener(line[b])
    ensures SkipQuotes(line, b) == b && SkipMarker(line, b) == b
  {
    RunEndsUnique(IsDecimalDigit, line, b, b);
  }

  lemma MarkerRecognized(line: string, j: nat, k: nat, b: nat)
    requires IsMarker(line, j, k) && AreBlanks(line, k, b) && b < |line| && IsOpener(line[b])
    requires !IsBlank(line[j])
    ensures SkipMarker(line, j) == k
  {
    if k >= j + 2 {
      RunEndsUnique(IsDecimalDigit, line, j, k - 1);
    } else if j == k {
      assert j == b;
      NoQuotesNoMarker(line, b);
    }
  }

  lemma {:induction false} QuotesRecognized(line: string, i: nat, j: nat, stop: nat)
    requires IsQuotes(line, i, j) && j <= stop < |line| && AreBlanks(line, j, stop)
    requires !IsBlank(line[stop]) && line[stop] != '>' && (i == j ==> i == stop)
    ensures SkipQuotes(line, i) == stop
    decreases |line| - i
  {
    if i < j {
      var next := SkipWhile(IsBlank, line, i + 1);
      if next <= stop && next < j {
        QuotesRecognized(line, next, j, stop);
      } else {
        RunEndsUnique(IsBlank, line, i + 1, stop);
      }
    }
  }

  lemma ScanFindsHead(line: string, i: nat, j: nat, k: nat, b: nat)
    requires AreBlanks(line, 0, i) && IsQuotes(line, i, j) && IsMarker(line, j, k) && AreBlanks(line, k, b)
    requires b < |line| && IsOpener(line[b])
    ensures BoxStart(line) == b
  {
    var i0 := SkipWhile(IsBlank, line, 0);
    assert j < |line|;
    if i == j && IsBlank(line[j]) {
      // nothing but blanks in front of the box
      assert k == j;
      RunEndsUnique(IsBlank, line, 0, b);
      NoQuotesNoMarker(line, b);
      BlanksThenBox(line, b, b);
    } else if IsBlank(line[j]) {
      // quotes, then blanks up to the box
      assert k == j && i0 == i;
      QuotesRecognized(line, i, j, b);
      NoQuotesNoMarker(line, b);
      BlanksThenBox(line, b, b);
    } else {
      assert i0 == i by { RunEndsUnique(IsBlank, line, 0, i); }
      MarkerStartIsNoQuote(line, j, k, b);
      QuotesRecognized(line, i, j, j);
      MarkerRecognized(line, j, k, b);
      BlanksThenBox(line, k, b);
    }
  }

  lemma MarkerStartIsNoQuote(line: string, j: nat, k: nat, b: nat)
    requires IsMarker(line, j, k) && AreBlanks(line, k, b) && b < |line| && IsOpener(line[b])
    ensures line[j] != '>'
  {}

  lemma ScanIsHead(line: string)
    ensures var i := SkipWhile(IsBlank, line, 0);
            var j := SkipQuotes(line, i);
            var k := SkipMarker(line, j);
            AreBlanks(line, 0, i) && IsQuotes(line, i, j) && IsMarker(line, j, k)
            && AreBlanks(line, k, BoxStart(line))
  {}

  /** The scan reports a box exactly where the regular expression matches one. */
  lemma HeadBoxIsTheRegex(line: string, b: nat, e: nat)
    ensures HeadBox(line) == Some((b, e)) <==> exists i: nat, j: nat, k: nat :: IsHead(line, i, j, k, b, e)
  {
    hide BoxStart, BoxEnd, IsBoxWith, IsQuotes, IsMarker, AreBlanks, AreDigits;
    if HeadBox(line) == Some((b, e)) {
      ScanIsHead(line);
      BoxSound(line, b, e);
      var i := SkipWhile(IsBlank, line, 0);
      var j := SkipQuotes(line, i);
      assert IsHead(line, i, j, SkipMarker(line, j), b, e);
    }
    if exists i: nat, j: nat, k: nat :: IsHead(line, i, j, k, b, e) {
      var i: nat, j: nat, k: nat :| IsHead(line, i, j, k, b, e);
      var m: nat, n: nat :| IsBoxWith(line, b, e, m, n);
      BoxRecognized(line, b, e, m, n);
      BoxOpens(line, b, e, m, n);
      ScanFindsHead(line, i, j, k, b);
    }
  }

  lemma BoxOpens(line: string, b: nat, e: nat, m: nat, n: nat)
    requires IsBoxWith(line, b, e, m, n)
    ensures b < |line| && IsOpener(line[b])
  {}
}
