/** What a fence delimiter and a fenced block are, over the characters of the lines
    (src/plan_parse.rs). */
module FenceBlocks {
  import opened Text
  import opened TaskLines
  import opened Lines
  import opened PlanDocument

  /** From `i` on, behind nothing but whitespace, exactly `n` times the character `c`. */
  predicate RunAt(line: string, i: nat, c: char, n: nat) {
    && i + n <= |line| && (forall k | 0 <= k < i :: IsWhitespace(line[k]))
    && (forall k | i <= k < i + n :: line[k] == c) && (i + n < |line| ==> line[i + n] != c)
  }

  /** Three or more backticks or tildes at the start of the line. */
  ghost predicate IsDelimiter(line: string, c: char, n: nat) {
    (c == '`' || c == '~') && n >= 3 && exists i: nat :: RunAt(line, i, c, n)
  }

  lemma RunStartsText(line: string, i: nat, c: char, n: nat)
    requires RunAt(line, i, c, n) && n > 0 && !IsWhitespace(c)
    ensures i == SkipWhile(IsWhitespace, line, 0)
    ensures var t := line[i..]; t != [] && t[0] == c && RunEndsAt(x => x == t[0], t, 0, n)
  {
    assert line[i] == c;
    assert forall k | 0 <= k < |line| - i :: line[i..][k] == line[i + k];
  }

  /** The scan finds a delimiter exactly where there is one. */
  lemma DelimiterExactly(line: string, c: char, n: nat)
    ensures FenceDelimiter(line) == Some((c, n)) <==> IsDelimiter(line, c, n)
  {
    var i := SkipWhile(IsWhitespace, line, 0);
    var t := TrimStart(line);
    assert t == line[i..];
    if FenceDelimiter(line) == Some((c, n)) {
      assert forall k | 0 <= k < |t| :: t[k] == line[i + k];
      assert forall k | i <= k < i + n :: line[k] == t[k - i];
      assert RunAt(line, i, c, n);
    }
    if IsDelimiter(line, c, n) {
      var i': nat :| RunAt(line, i', c, n);
      RunStartsText(line, i', c, n);
      RunEndsUnique(x => x == t[0], t, 0, n);
    }
  }

  lemma NoDelimiterExactly(line: string)
    ensures FenceDelimiter(line) == None <==> forall c, n: nat :: !IsDelimiter(line, c, n)
  {
    hide FenceDelimiter, IsDelimiter;
    forall c, n: nat ensures FenceDelimiter(line) == Some((c, n)) <==> IsDelimiter(line, c, n) {
      DelimiterExactly(line, c, n);
    }
    if FenceDelimiter(line).Some? {
      var d := FenceDelimiter(line).value;
      assert FenceDelimiter(line) == Some((d.0, d.1));
    }
  }

  // ----- Blocks

  /** A delimiter of at least `n` times `c` on line `k`. */
  ghost predicate Closes(lines: seq<string>, k: nat, c: char, n: nat)
    requires k < |lines|
  {
    exists m: nat :: m >= n && IsDelimiter(lines[k], c, m)
  }

  /** Line `j` opens a block that no line before `k` closes. */
  ghost predicate OpenAt(lines: seq<string>, j: nat, k: nat, c: char, n: nat)
    requires k <= |lines|
  {
    j < k && IsDelimiter(lines[j], c, n) && forall i | j < i < k :: !Closes(lines, i, c, n)
  }

  /** Line `k` is inside a block: a delimiter above it, itself not inside one, is not closed
      before it. */
  ghost predicate InsideBlock(lines: seq<string>, k: nat)
    requires k <= |lines|
  {
    exists j: nat, c, n: nat | j < k :: OpenAt(lines, j, k, c, n) && !InsideBlock(lines, j)
  }

  lemma ClosesMeans(lines: seq<string>, k: nat, c: char, n: nat)
    requires k < |lines|
    ensures Closes(lines, k, c, n) <==>
            && FenceDelimiter(lines[k]).Some?
            && FenceDelimiter(lines[k]).value.0 == c && FenceDelimiter(lines[k]).value.1 >= n
  {
    hide FenceDelimiter, IsDelimiter;
    forall m: nat ensures FenceDelimiter(lines[k]) == Some((c, m)) <==> IsDelimiter(lines[k], c, m) {
      DelimiterExactly(lines[k], c, m);
    }
    if FenceDelimiter(lines[k]).Some? {
      var d := FenceDelimiter(lines[k]).value;
      assert FenceDelimiter(lines[k]) == Some((d.0, d.1));
    }
  }

  /** The automaton is inside a block exactly when a line opened it from outside and none has
      closed it since. */
  lemma {:induction false} StateMeans(lines: seq<string>, k: nat, c: char, n: nat)
    requires k <= |lines|
    ensures StateAt(lines, k) == Inside(c, n) <==>
            exists j: nat | j < k :: StateAt(lines, j) == Outside && OpenAt(lines, j, k, c, n)
  {
    hide FenceDelimiter, IsDelimiter, Closes;
    if k > 0 {
      StateMeans(lines, k - 1, c, n);
      ClosesMeans(lines, k - 1, c, n);
      DelimiterExactly(lines[k - 1], c, n);
      assert StateAt(lines, k) == FenceStep(StateAt(lines, k - 1), lines[k - 1]);
      if StateAt(lines, k) == Inside(c, n) {
        if StateAt(lines, k - 1) == Outside {
          assert OpenAt(lines, k - 1, k, c, n);
        } else {
          var j: nat :| j < k - 1 && StateAt(lines, j) == Outside && OpenAt(lines, j, k - 1, c, n);
          assert OpenAt(lines, j, k, c, n);
        }
      }
      forall j: nat | j < k && StateAt(lines, j) == Outside && OpenAt(lines, j, k, c, n)
        ensures StateAt(lines, k) == Inside(c, n)
      {
        if j < k - 1 {
          assert OpenAt(lines, j, k - 1, c, n);
          assert !Closes(lines, k - 1, c, n);
        }
      }
    }
  }

  /** The automaton agrees with the blocks of the document before every line. */
  lemma {:induction false} InsideExactlyWhen(lines: seq<string>, k: nat)
    requires k <= |lines|
    ensures StateAt(lines, k).Inside? <==> InsideBlock(lines, k)
    decreases k
  {
    hide OpenAt, StateAt;
    forall j: nat | j < k ensures StateAt(lines, j).Inside? <==> InsideBlock(lines, j) { InsideExactlyWhen(lines, j); }
    if StateAt(lines, k).Inside? {
      var c, n := StateAt(lines, k).ch, StateAt(lines, k).len;
      StateMeans(lines, k, c, n);
      var j: nat :| j < k && StateAt(lines, j) == Outside && OpenAt(lines, j, k, c, n);
      assert !InsideBlock(lines, j);
    }
    if InsideBlock(lines, k) {
      var j: nat, c, n: nat :| j < k && OpenAt(lines, j, k, c, n) && !InsideBlock(lines, j);
      assert StateAt(lines, j) == Outside;
      StateMeans(lines, k, c, n);
    }
  }

  /** A line is scanned for tasks exactly when it is in no block and is no delimiter. */
  lemma ScannableExactlyWhen(lines: seq<string>, k: nat)
    requires k < |lines|
    ensures Scannable(lines, k) <==> !InsideBlock(lines, k) && forall c, n: nat :: !IsDelimiter(lines[k], c, n)
  {
    hide InsideBlock, IsDelimiter, FenceDelimiter, StateAt;
    InsideExactlyWhen(lines, k);
    NoDelimiterExactly(lines[k]);
  }
}
