/** The mission-marker grammar: occurrences, placement, and the precedence table
    (src/markers.rs).  The negation cue is a parameter, a predicate of the window before
    the marker. */
module Markers {
  import opened Text

  datatype MissionMarker =
    | Complete(taskId: Option<string>)
    | Failed(reason: string)
    | Replan(reason: string)

  datatype Kind = KReplan | KFailed | KComplete

  datatype Placement = LineStart | TerminalLine | Embedded

  datatype Occurrence = Occurrence(
    kind: Kind, start: nat, end: nat, placement: Placement, negated: bool, verdictShaped: bool)

  // ----- Placement through the line map

  datatype LineMap = LineMap(starts: seq<nat>, terminalLine: nat)

  predicate IsNotNewline(c: char) { c != '\n' }

  /** Offsets of the lines that start within the first `n` characters. */
  function StartsUpTo(text: string, n: nat): (starts: seq<nat>)
    requires n <= |text|
    ensures |starts| > 0
  {
    if n == 0 then [0]
    else StartsUpTo(text, n - 1) + (if text[n - 1] == '\n' then [n] else [])
  }

  /** End of line `i`, its newline included. */
  function EndOfLine(text: string, starts: seq<nat>, i: nat): nat
    requires i < |starts|
  {
    if i + 1 < |starts| then starts[i + 1] else |text|
  }

  predicate BlankLine(text: string, starts: seq<nat>, i: nat)
    requires i < |starts|
  {
    starts[i] <= EndOfLine(text, starts, i) <= |text| && Trim(text[starts[i]..EndOfLine(text, starts, i)]) == []
  }

  /** The last of the first `n` lines that is not blank, or line 0. */
  function LastNonBlank(text: string, starts: seq<nat>, n: nat): (line: nat)
    requires n <= |starts|
    ensures line == 0 || (line < n && !BlankLine(text, starts, line))
    ensures forall k | line < k < n :: BlankLine(text, starts, k)
  {
    if n == 0 then 0
    else if BlankLine(text, starts, n - 1) then LastNonBlank(text, starts, n - 1)
    else n - 1
  }

  function LineMapOf(text: string): (lines: LineMap)
    ensures |lines.starts| > 0
  {
    var starts := StartsUpTo(text, |text|);
    LineMap(starts, LastNonBlank(text, starts, |starts|))
  }

  method BuildLineMap(text: string) returns (lines: LineMap)
    ensures lines == LineMapOf(text)
  {
    hide BlankLine;
    var starts := [0];
    for idx := 0 to |text|
      invariant starts == StartsUpTo(text, idx)
    {
      if text[idx] == '\n' { starts := starts + [idx + 1]; }
    }
    var terminal := 0;
    for i := 0 to |starts|
      invariant terminal == LastNonBlank(text, starts, i)
    {
      if BlankLine(text, starts, i) { continue; }
      terminal := i;
    }
    lines := LineMap(starts, terminal);
  }

  /** Index of the last of the first `n` starts that is not behind `pos`. */
  function LineIndex(starts: seq<nat>, pos: nat, n: nat): (i: nat)
    requires 0 < n <= |starts|
    ensures i < n && (i == 0 || starts[i] <= pos) && forall k | i < k < n :: starts[k] > pos
  {
    if n == 1 || starts[n - 1] <= pos then n - 1 else LineIndex(starts, pos, n - 1)
  }

  function PlacementOf(pos: nat, lines: LineMap, hay: string): Placement
    requires pos <= |hay| && |lines.starts| > 0
  {
    var idx := LineIndex(lines.starts, pos, |lines.starts|);
    if lines.starts[idx] <= pos && Trim(hay[lines.starts[idx]..pos]) == [] then LineStart
    else if idx == lines.terminalLine then TerminalLine
    else Embedded
  }

  // ----- What placement means

  /** Nothing but whitespace between the last newline and `pos`. */
  ghost predicate LineInitial(s: string, pos: nat)
    requires pos <= |s|
  {
    All(IsWhitespace, s[SkipBack(IsNotNewline, s, pos)..pos])
  }

  /** Nothing but whitespace behind the line of `pos`. */
  ghost predicate OnLastLine(s: string, pos: nat)
    requires pos <= |s|
  {
    All(IsWhitespace, s[SkipWhile(IsNotNewline, s, pos)..])
  }

  // ----- Lines by counting newlines

  ghost function Newlines(text: string, p: nat): nat
    requires p <= |text|
  {
    if p == 0 then 0 else Newlines(text, p - 1) + (if text[p - 1] == '\n' then 1 else 0)
  }

  lemma {:induction false} NewlinesGrow(text: string, p: nat, q: nat)
    requires p <= q <= |text|
    ensures Newlines(text, p) <= Newlines(text, q)
    ensures Newlines(text, p) == Newlines(text, q) <==> forall k | p <= k < q :: text[k] != '\n'
    decreases q
  {
    if p < q { NewlinesGrow(text, p, q - 1); }
  }

  /** The `k`-th start lies behind `k` newlines, the last of them right before it. */
  ghost predicate AreStarts(text: string, n: nat, starts: seq<nat>)
    requires n <= |text|
  {
    && |starts| == Newlines(text, n) + 1
    && forall k | 0 <= k < |starts| ::
         starts[k] <= n && Newlines(text, starts[k]) == k
         && (if k == 0 then starts[k] == 0 else starts[k] > 0 && text[starts[k] - 1] == '\n')
  }

  lemma {:induction false} StartsAreStarts(text: string, n: nat)
    requires n <= |text|
    ensures AreStarts(text, n, StartsUpTo(text, n))
  {
    if n > 0 {
      StartsAreStarts(text, n - 1);
      var before := StartsUpTo(text, n - 1);
      StartsGrow(text, n, before);
    }
  }

  lemma StartsGrow(text: string, n: nat, before: seq<nat>)
    requires 0 < n <= |text| && AreStarts(text, n - 1, before)
    ensures AreStarts(text, n, before + (if text[n - 1] == '\n' then [n] else []))
  {
    assert Newlines(text, n) == Newlines(text, n - 1) + (if text[n - 1] == '\n' then 1 else 0);
    hide Newlines;
    var starts := before + (if text[n - 1] == '\n' then [n] else []);
    assert forall k | 0 <= k < |before| :: starts[k] == before[k];
  }

  /** A line holds exactly the positions behind as many newlines as its index. */
  lemma LineHolds(text: string, k: nat, p: nat)
    requires k < |StartsUpTo(text, |text|)| && p <= |text|
    ensures var starts := StartsUpTo(text, |text|);
            && starts[k] <= EndOfLine(text, starts, k) <= |text|
            && (starts[k] <= p <==> k <= Newlines(text, p))
            && (k + 1 < |starts| ==> (p < starts[k + 1] <==> Newlines(text, p) <= k))
  {
    var starts := StartsUpTo(text, |text|);
    StartsAreStarts(text, |text|);
    StartReached(text, starts, k, p);
    if k + 1 < |starts| {
      StartReached(text, starts, k + 1, p);
      StartReached(text, starts, k, starts[k + 1]);
    }
  }

  lemma StartReached(text: string, starts: seq<nat>, k: nat, p: nat)
    requires AreStarts(text, |text|, starts) && k < |starts| && p <= |text|
    ensures starts[k] <= p <==> k <= Newlines(text, p)
  {
    if starts[k] <= p {
      NewlinesGrow(text, starts[k], p);
    } else {
      NewlinesGrow(text, p, starts[k] - 1);
    }
  }

  lemma LineIndexCounts(text: string, pos: nat)
    requires pos <= |text|
    ensures var starts := StartsUpTo(text, |text|);
            LineIndex(starts, pos, |starts|) == Newlines(text, pos) < |starts|
            && starts[Newlines(text, pos)] == SkipBack(IsNotNewline, text, pos) <= pos
  {
    var starts := StartsUpTo(text, |text|);
    var idx, n := LineIndex(starts, pos, |starts|), Newlines(text, pos);
    StartsAreStarts(text, |text|);
    NewlinesGrow(text, pos, |text|);
    StartReached(text, starts, idx, pos);
    StartReached(text, starts, n, pos);
    NewlinesGrow(text, starts[n], pos);
    assert RunStartsAt(IsNotNewline, text, starts[n], pos);
  }

  lemma BlankLineMeans(text: string, k: nat)
    requires k < |StartsUpTo(text, |text|)|
    ensures BlankLine(text, StartsUpTo(text, |text|), k) <==>
            forall p: nat | p < |text| && Newlines(text, p) == k :: IsWhitespace(text[p])
  {
    var starts := StartsUpTo(text, |text|);
    LineHolds(text, k, 0);
    var line := text[starts[k]..EndOfLine(text, starts, k)];
    TrimEmptyIffBlank(line);
    forall p: nat | p < |text|
      ensures Newlines(text, p) == k <==> starts[k] <= p < EndOfLine(text, starts, k)
    {
      LineHolds(text, k, p);
      LastLineCount(text, p);
    }
    hide Trim, Newlines, StartsUpTo;
    assert forall i | 0 <= i < |line| :: line[i] == text[starts[k] + i];
    assert forall p | starts[k] <= p < starts[k] + |line| :: text[p] == line[p - starts[k]];
  }

  lemma LastLineCount(text: string, p: nat)
    requires p <= |text|
    ensures Newlines(text, p) < |StartsUpTo(text, |text|)|
  {
    StartsAreStarts(text, |text|);
    NewlinesGrow(text, p, |text|);
  }

  /** Everything behind the line of `pos` is blank when all later lines are. */
  lemma BlankBehind(text: string, pos: nat, p: nat)
    requires pos <= |text| && SkipWhile(IsNotNewline, text, pos) <= p < |text|
    requires var starts := StartsUpTo(text, |text|);
             forall k | Newlines(text, pos) < k < |starts| :: BlankLine(text, starts, k)
    ensures IsWhitespace(text[p])
  {
    hide StartsUpTo, BlankLine, EndOfLine, Newlines;
    BehindTheLine(text, pos, p);
    LastLineCount(text, p);
    if SkipWhile(IsNotNewline, text, pos) < p {
      BlankLineMeans(text, Newlines(text, p));
    }
  }

  /** A later line that is not blank shows behind the line of `pos`. */
  lemma NotBlankBehind(text: string, pos: nat, k: nat)
    requires pos <= |text| && Newlines(text, pos) < k < |StartsUpTo(text, |text|)|
    requires !BlankLine(text, StartsUpTo(text, |text|), k)
    ensures !OnLastLine(text, pos)
  {
    hide StartsUpTo, BlankLine, EndOfLine, Newlines;
    BlankLineMeans(text, k);
    var p: nat :| p < |text| && Newlines(text, p) == k && !IsWhitespace(text[p]);
    BehindTheLine(text, pos, p);
    var e := SkipWhile(IsNotNewline, text, pos);
    assert text[e..][p - e] == text[p];
  }

  lemma TerminalIffLast(text: string, pos: nat)
    requires pos < |text| && !IsWhitespace(text[pos])
    ensures Newlines(text, pos) == LineMapOf(text).terminalLine <==> OnLastLine(text, pos)
  {
    var starts := StartsUpTo(text, |text|);
    var t, n := LastNonBlank(text, starts, |starts|), Newlines(text, pos);
    assert t == LineMapOf(text).terminalLine;
    hide StartsUpTo, LastNonBlank, BlankLine, EndOfLine, Newlines, LineMapOf;
    LastLineCount(text, pos);
    BlankLineMeans(text, n);
    assert n <= t;
    if n < t {
      NotBlankBehind(text, pos, t);
    } else {
      var e := SkipWhile(IsNotNewline, text, pos);
      forall p: nat | e <= p < |text| ensures IsWhitespace(text[p]) {
        BlankBehind(text, pos, p);
      }
    }
  }

  lemma BehindTheLine(text: string, pos: nat, p: nat)
    requires pos <= |text| && p < |text|
    ensures Newlines(text, pos) < Newlines(text, p) <==> SkipWhile(IsNotNewline, text, pos) < p
  {
    var e := SkipWhile(IsNotNewline, text, pos);
    if pos <= p {
      NewlinesGrow(text, pos, p);
      if e < p { assert text[e] == '\n'; }
    } else {
      NewlinesGrow(text, p, pos);
    }
  }

  /** The line map decides placement as the text shows it: at the start of its line, on
      the last line that is not blank, or neither. */
  lemma PlacementMeans(text: string, hay: string, pos: nat)
    requires |hay| == |text| && pos < |text| && !IsWhitespace(text[pos])
    requires forall p | 0 <= p < |text| :: hay[p] == '\n' <==> text[p] == '\n'
    ensures PlacementOf(pos, LineMapOf(text), hay) ==
            if LineInitial(hay, pos) then LineStart else if OnLastLine(text, pos) then TerminalLine else Embedded
  {
    LineIndexCounts(text, pos);
    var ls := SkipBack(IsNotNewline, text, pos);
    assert SkipBack(IsNotNewline, hay, pos) == ls;
    TrimEmptyIffBlank(hay[ls..pos]);
    TerminalIffLast(text, pos);
    hide StartsUpTo, LastNonBlank, LineIndex, OnLastLine, Trim, Newlines;
  }
}
