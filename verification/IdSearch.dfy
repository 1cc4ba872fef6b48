/** Task-id tokens in free text, and the boundary-safe search of a line for an id
    (src/plan_parse.rs).  What counts as alphanumeric outside ASCII is a parameter. */
module IdSearch {
  import opened Text
  import opened TaskId
  import opened TaskLines

  // ----- The first task-id token of a text

  predicate TokenAt(text: string, k: nat) {
    StartsIdToken(text, k) && (k == 0 || !IsTokenChar(text[k - 1]))
  }

  function TokenFlags(text: string): (flags: seq<bool>)
    ensures |flags| == |text| && forall k | 0 <= k < |text| :: flags[k] == TokenAt(text, k)
  {
    seq(|text|, k requires 0 <= k < |text| => TokenAt(text, k))
  }

  /** The leftmost token, extended as far right as it goes. */
  function FindTaskIdToken(text: string): Option<string> {
    match FirstTrue(TokenFlags(text))
    case None => None
    case Some(k) => Some(text[k..SkipWhile(IsTokenChar, text, k + 2)])
  }

  /** `text[i..j]` is a maximal task-id token: bounded on both sides. */
  ghost predicate IsToken(text: string, i: nat, j: nat) {
    && i <= j <= |text| && IsTaskIdToken(text[i..j])
    && (i == 0 || !IsTokenChar(text[i - 1])) && (j == |text| || !IsTokenChar(text[j]))
  }

  /** The token found is the first one bounded on both sides; none is found only when
      there is none. */
  lemma FoundTokenIsFirst(text: string)
    ensures var r := FindTaskIdToken(text);
            if r.Some? then exists i: nat, j: nat :: IsToken(text, i, j) && r.value == text[i..j]
                              && forall i': nat, j': nat :: IsToken(text, i', j') ==> i <= i'
            else forall i: nat, j: nat :: !IsToken(text, i, j)
  {
    var flags := TokenFlags(text);
    forall i: nat, j: nat | IsToken(text, i, j) ensures i < |text| && flags[i] {
      var token := text[i..j];
      assert token[0] == text[i] && token[1] == text[i + 1] && token[2] == text[i + 2];
    }
    match FirstTrue(flags)
    case None =>
    case Some(k) =>
      var e := SkipWhile(IsTokenChar, text, k + 2);
      assert e > k + 2;
      assert text[k..e][2..] == text[k + 2..e];
      assert IsToken(text, k, e);
  }

  // ----- Does a line refer to a task id?

  function TaskIdOfLine(line: string): Option<string> {
    match ParseTaskLineAt(line, 0)
    case None => None
    case Some(task) =>
      if task.taskId.Some? then Some(Lower(task.taskId.value))
      else match FindTaskIdToken(line)
        case None => None
        case Some(id) => Some(Lower(Normalize(id)))
  }

  predicate IsWordChar(alphanumeric: char -> bool, c: char) { alphanumeric(c) || c == '-' || c == '_' }

  /** An occurrence of `w` that is not glued to a longer word on either side. */
  predicate ClearAt(alphanumeric: char -> bool, s: string, w: string, i: nat) {
    && OccursAt(s, w, i)
    && (i == 0 || !IsWordChar(alphanumeric, s[i - 1]))
    && (i + |w| == |s| || !IsWordChar(alphanumeric, s[i + |w|]))
  }

  predicate LineMatches(alphanumeric: char -> bool, line: string, taskId: string) {
    var target, lower := Key(taskId), Lower(line);
    && target != []
    && match TaskIdOfLine(line)
       case Some(id) => id == target
       case None => exists k | 0 <= k < |FindAll(lower, target, 0)| ::
                      ClearAt(alphanumeric, lower, target, FindAll(lower, target, 0)[k])
  }

  lemma NothingAtTheEnd(s: string, w: string)
    requires w != []
    ensures FindAll(s, w, |s|) == []
  {}

  lemma NextMatch(s: string, w: string, from: nat)
    requires from <= |s| && w != []
    ensures match Find(s, w, from)
            case None => FindAll(s, w, from) == []
            case Some(p) => p + |w| <= |s| && FindAll(s, w, from) == [p] + FindAll(s, w, p + |w|)
  {
    hide OccursAt;
    if Find(s, w, from).Some? { OccurrenceFits(s, w, Find(s, w, from).value); }
  }

  method SearchClear(alphanumeric: char -> bool, s: string, w: string) returns (found: bool)
    requires w != []
    ensures found <==> exists k | 0 <= k < |FindAll(s, w, 0)| :: ClearAt(alphanumeric, s, w, FindAll(s, w, 0)[k])
  {
    hide ClearAt, OccursAt, Find, FindAll;
    ghost var all := FindAll(s, w, 0);
    ghost var n := 0;
    var start := 0;
    while true
      invariant 0 <= start <= |s| && 0 <= n <= |all|
      invariant all[n..] == FindAll(s, w, start)
      invariant forall k | 0 <= k < n :: !ClearAt(alphanumeric, s, w, all[k])
      decreases |s| - start
    {
      var pos := Find(s, w, start);
      NextMatch(s, w, start);
      if pos == None { break; }
      assert all[n] == pos.value && all[n + 1..] == FindAll(s, w, pos.value + |w|);
      if ClearAt(alphanumeric, s, w, pos.value) { return true; }
      n := n + 1;
      start := pos.value + |w|;
      if start >= |s| {
        NothingAtTheEnd(s, w);
        break;
      }
    }
    return false;
  }

  method LineMatchesTaskId(alphanumeric: char -> bool, line: string, taskId: string) returns (found: bool)
    ensures found == LineMatches(alphanumeric, line, taskId)
  {
    hide TaskIdOfLine, Key;
    var target := Key(taskId);
    if target == [] { return false; }
    var lineId := TaskIdOfLine(line);
    if lineId.Some? { return lineId.value == target; }
    found := SearchClear(alphanumeric, Lower(line), target);
  }

  // ----- When skipping whole matches misses nothing

  /** `w` can follow itself at distance `d` with a clear character in front. */
  predicate FreeOverlap(alphanumeric: char -> bool, w: string, d: nat) {
    0 < d < |w| && !IsWordChar(alphanumeric, w[d - 1]) && forall k | d <= k < |w| :: w[k] == w[k - d]
  }

  /** The skipping search sees a clear occurrence of `w` in `s` whenever there is one. */
  ghost predicate FindsClear(alphanumeric: char -> bool, s: string, w: string)
    requires w != []
  {
    (exists k | 0 <= k < |FindAll(s, w, 0)| :: ClearAt(alphanumeric, s, w, FindAll(s, w, 0)[k]))
    <==> exists i: nat :: ClearAt(alphanumeric, s, w, i)
  }

  lemma ClearInsideIsFree(alphanumeric: char -> bool, s: string, w: string, p: nat, i: nat)
    requires OccursAt(s, w, p) && p < i < p + |w| && ClearAt(alphanumeric, s, w, i)
    ensures FreeOverlap(alphanumeric, w, i - p)
  {
    var d := i - p;
    assert s[p + (d - 1)] == w[d - 1];
    forall k | d <= k < |w| ensures w[k] == w[k - d] {
      assert s[p + k] == w[k] && s[i + (k - d)] == w[k - d];
    }
  }

  lemma NoFreeOverlapFindsClear(alphanumeric: char -> bool, s: string, w: string)
    requires w != [] && forall d: nat :: !FreeOverlap(alphanumeric, w, d)
    ensures FindsClear(alphanumeric, s, w)
  {
    FindAllSound(s, w, 0);
    hide ClearAt, FreeOverlap, OccursAt;
    var ps := FindAll(s, w, 0);
    forall i: nat | ClearAt(alphanumeric, s, w, i)
      ensures exists k | 0 <= k < |ps| :: ClearAt(alphanumeric, s, w, ps[k])
    {
      ClearOccurs(alphanumeric, s, w, i);
      FindAllCovers(s, w, 0, i);
      var k :| 0 <= k < |ps| && ps[k] <= i < ps[k] + |w|;
      if ps[k] < i { ClearInsideIsFree(alphanumeric, s, w, ps[k], i); }
    }
  }

  lemma ClearOccurs(alphanumeric: char -> bool, s: string, w: string, i: nat)
    requires ClearAt(alphanumeric, s, w, i)
    ensures OccursAt(s, w, i)
  {}

  /** A word character in front of two overlapping copies of `w`. */
  function GluedCopies(c: char, w: string, d: nat): string
    requires d <= |w|
  {
    [c] + w[..d] + w
  }

  lemma GluedOccurrences(c: char, w: string, d: nat)
    requires 0 < d < |w| && (forall k | d <= k < |w| :: w[k] == w[k - d]) && c != w[0]
    ensures FindAll(GluedCopies(c, w, d), w, 0) == [1]
    ensures OccursAt(GluedCopies(c, w, d), w, 1) && OccursAt(GluedCopies(c, w, d), w, 1 + d)
  {
    var s := GluedCopies(c, w, d);
    assert forall k | 1 <= k < 1 + d :: s[k] == w[k - 1];
    assert forall k | 1 + d <= k < |s| :: s[k] == w[k - 1 - d];
    assert s[0 + 0] != w[0];
    assert Find(s, w, 0) == Some(1);
    assert forall i: nat | 1 + |w| <= i :: !OccursAt(s, w, i);
    assert Find(s, w, 1 + |w|) == None;
  }

  lemma GluedIsMissed(alphanumeric: char -> bool, c: char, w: string, d: nat)
    requires FreeOverlap(alphanumeric, w, d) && IsWordChar(alphanumeric, c) && c != w[0]
    ensures !FindsClear(alphanumeric, GluedCopies(c, w, d), w)
  {
    var s := GluedCopies(c, w, d);
    GluedOccurrences(c, w, d);
    assert s[0] == c && s[d] == w[d - 1];
    hide OccursAt, FindAll;
    assert ClearAt(alphanumeric, s, w, 1 + d);
    assert !ClearAt(alphanumeric, s, w, 1);
  }

  /** Some letter is not the first one of the target. */
  function OtherLetter(w: string): (c: char)
    requires w != []
    ensures c != w[0] && (c == 'a' || c == 'b')
  {
    if w[0] == 'a' then 'b' else 'a'
  }

  /** The skipping search is complete on every text exactly when the target has no overlap with
      itself behind a character that is not a word character. */
  lemma SkippingSearchIsCompleteExactlyWhen(alphanumeric: char -> bool, w: string)
    requires w != [] && forall c :: IsAsciiAlphanumeric(c) ==> alphanumeric(c)
    ensures (forall s: string :: FindsClear(alphanumeric, s, w)) <==> forall d: nat :: !FreeOverlap(alphanumeric, w, d)
  {
    hide FindsClear, FreeOverlap;
    if forall d: nat :: !FreeOverlap(alphanumeric, w, d) {
      forall s: string ensures FindsClear(alphanumeric, s, w) { NoFreeOverlapFindsClear(alphanumeric, s, w); }
    } else {
      var d: nat :| FreeOverlap(alphanumeric, w, d);
      assert IsAsciiAlphanumeric(OtherLetter(w));
      GluedIsMissed(alphanumeric, OtherLetter(w), w, d);
    }
  }

  /** What the search on a line without an id of its own is for. */
  ghost predicate MatchesAsIntended(alphanumeric: char -> bool, line: string, taskId: string) {
    TaskIdOfLine(line) == None ==>
      (LineMatches(alphanumeric, line, taskId) <==> exists i: nat :: ClearAt(alphanumeric, Lower(line), Key(taskId), i))
  }

  lemma IntendedMeansFound(alphanumeric: char -> bool, line: string, taskId: string)
    requires Key(taskId) != []
    ensures MatchesAsIntended(alphanumeric, line, taskId)
            <==> TaskIdOfLine(line).Some? || FindsClear(alphanumeric, Lower(line), Key(taskId))
  {
    hide TaskIdOfLine, ClearAt, FindAll, Key, Lower;
  }

  lemma LetterLineHasNoId(line: string)
    requires line != [] && (line[0] == 'a' || line[0] == 'b')
    ensures TaskIdOfLine(line) == None
  {
    RunEndsUnique(IsBlank, line, 0, 0);
    RunEndsUnique(IsDecimalDigit, line, 0, 0);
    assert HeadBox(line) == None;
    hide HeadBox;
  }

  /** A line refers to an id by its own id or by a clear occurrence, exactly when the id has no
      such overlap. */
  lemma LinesMatchAsIntendedExactlyWhen(alphanumeric: char -> bool, taskId: string)
    requires Key(taskId) != [] && forall c :: IsAsciiAlphanumeric(c) ==> alphanumeric(c)
    ensures (forall line: string :: MatchesAsIntended(alphanumeric, line, taskId))
            <==> forall d: nat :: !FreeOverlap(alphanumeric, Key(taskId), d)
  {
    var w := Key(taskId);
    assert Lower(w) == w;
    hide MatchesAsIntended, FindsClear, FreeOverlap, Key, TaskIdOfLine;
    if forall d: nat :: !FreeOverlap(alphanumeric, w, d) {
      forall line: string
        ensures MatchesAsIntended(alphanumeric, line, taskId)
      {
        NoFreeOverlapFindsClear(alphanumeric, Lower(line), w);
        IntendedMeansFound(alphanumeric, line, taskId);
      }
    } else {
      var d: nat :| FreeOverlap(alphanumeric, w, d);
      MissedLine(alphanumeric, taskId, d);
    }
  }

  lemma MissedLine(alphanumeric: char -> bool, taskId: string, d: nat)
    requires Key(taskId) != [] && forall c :: IsAsciiAlphanumeric(c) ==> alphanumeric(c)
    requires FreeOverlap(alphanumeric, Key(taskId), d)
    ensures !MatchesAsIntended(alphanumeric, GluedCopies(OtherLetter(Key(taskId)), Key(taskId), d), taskId)
  {
    var w := Key(taskId);
    var c := OtherLetter(w);
    assert Lower(w) == w;
    assert IsAsciiAlphanumeric(c) && d <= |w|;
    hide MatchesAsIntended, FindsClear, Key, TaskIdOfLine, FreeOverlap, Lower;
    LowerGlued(c, w, d);
    GluedIsMissed(alphanumeric, c, w, d);
    LetterLineHasNoId(GluedCopies(c, w, d));
    IntendedMeansFound(alphanumeric, GluedCopies(c, w, d), taskId);
  }

  lemma LowerGlued(c: char, w: string, d: nat)
    requires Lower(w) == w && d <= |w| && (c == 'a' || c == 'b')
    ensures Lower(GluedCopies(c, w, d)) == GluedCopies(c, w, d)
  {
    assert forall k | 0 <= k < |w| :: LowerChar(w[k]) == Lower(w)[k] == w[k];
  }

  /** For a target of id characters jumping past a whole failed match loses nothing. */
  lemma SkippingSearchIsComplete(alphanumeric: char -> bool, s: string, w: string)
    requires w != [] && All(IsIdChar, w) && forall c :: IsAsciiAlphanumeric(c) ==> alphanumeric(c)
    ensures (exists k | 0 <= k < |FindAll(s, w, 0)| :: ClearAt(alphanumeric, s, w, FindAll(s, w, 0)[k]))
            <==> exists i: nat :: ClearAt(alphanumeric, s, w, i)
  {
    forall d: nat ensures !FreeOverlap(alphanumeric, w, d) {
      assert 0 < d < |w| ==> IsIdChar(w[d - 1]);
    }
    hide FreeOverlap, ClearAt;
    NoFreeOverlapFindsClear(alphanumeric, s, w);
  }

  /** A target with an inner blank can be missed: in `xa a a` the first `a a` is glued to
      the `x`, and the clear one overlaps it. */
  lemma OverlappingMatchIsMissed(alphanumeric: char -> bool)
    requires alphanumeric('x') && !alphanumeric(' ')
    ensures var s, w := "xa a a", "a a";
            ClearAt(alphanumeric, s, w, 3)
            && forall k | 0 <= k < |FindAll(s, w, 0)| :: !ClearAt(alphanumeric, s, w, FindAll(s, w, 0)[k])
  {
    var s, w := "xa a a", "a a";
    assert s[0] == 'x' && s[1] == 'a' && s[2] == ' ' && s[3] == 'a' && s[4] == ' ' && s[5] == 'a';
    assert w[0] == 'a' && w[1] == ' ' && w[2] == 'a';
    assert !OccursAt(s, w, 0) by { assert s[0 + 0] != w[0]; }
    assert OccursAt(s, w, 1);
    assert Find(s, w, 0) == Some(1);
    assert forall i: nat | 4 <= i :: !OccursAt(s, w, i);
    assert Find(s, w, 4) == None;
    assert FindAll(s, w, 0) == [1];
  }
}
