/** Task-id normalization and validation (src/task_id.rs). */
module TaskId {
  import opened Text

  datatype TaskIdError =
    | Empty
    | TooLong(len: nat, max: nat)
    | PathSeparator(ch: char)
    | DotDotSegment
    | LeadingDot
    | TrailingDot
    | Whitespace(ch: char)
    | ControlCharacter(ch: char)
    | NonAscii(ch: char)
    | DisallowedCharacter(ch: char)

  datatype Validation = Accepted(id: string) | Rejected(error: TaskIdError)

  const MAX_TASK_ID_LEN: nat := 64

  predicate IsDecoration(c: char) {
    c == '[' || c == ']' || c == '(' || c == ')' || c == '"' || c == '\''
  }

  /** Trim, strip decoration, trim again. */
  function Normalize(raw: string): string { Trim(TrimWhile(IsDecoration, Trim(raw))) }

  /** The identity under which two ids are compared: `""` stands for "no id". */
  function Key(raw: string): string { Lower(Normalize(raw)) }

  /** Case- and decoration-insensitive comparison; empty ids equal nothing. */
  predicate TaskIdEq(a: string, b: string) {
    var left, right := Normalize(a), Normalize(b);
    left != [] && right != [] && |left| == |right|
    && forall i | 0 <= i < |left| :: LowerChar(left[i]) == LowerChar(right[i])
  }

  lemma TaskIdEqIsKeyEquality(a: string, b: string)
    ensures TaskIdEq(a, b) <==> Key(a) == Key(b) && Key(a) != []
  {
    var l, r := Normalize(a), Normalize(b);
    if Key(a) == Key(b) {
      assert forall i | 0 <= i < |l| :: Lower(l)[i] == Lower(r)[i];
    }
  }

  /** The check the validator's scan applies to one position. */
  function Offence(id: string, idx: nat): Option<TaskIdError>
    requires idx < |id|
  {
    var ch := id[idx];
    if ch == '/' || ch == '\\' then Some(PathSeparator(ch))
    else if IsWhitespace(ch) then Some(Whitespace(ch))
    else if IsControl(ch) then Some(ControlCharacter(ch))
    else if ch == '.' then
      if idx == 0 then Some(LeadingDot)
      else if idx + 1 == |id| then Some(TrailingDot)
      else None
    else if !IsAscii(ch) then Some(NonAscii(ch))
    else if !IsIdChar(ch) then Some(DisallowedCharacter(ch))
    else None
  }

  /** The scan reports the first offending position, or accepts. */
  function Scan(id: string, idx: nat): (r: Validation)
    requires idx <= |id|
    ensures r.Accepted? ==> r.id == id && forall k | idx <= k < |id| :: Offence(id, k).None?
    ensures r.Rejected? ==> exists k | idx <= k < |id| ::
                              Offence(id, k) == Some(r.error) && forall j | idx <= j < k :: Offence(id, j).None?
    decreases |id| - idx
  {
    if idx == |id| then Accepted(id)
    else match Offence(id, idx)
      case Some(e) => Rejected(e)
      case None => Scan(id, idx + 1)
  }

  function ValidateTaskId(id: string): Validation {
    if Trim(id) == [] then Rejected(Empty)
    else if |id| > MAX_TASK_ID_LEN then Rejected(TooLong(|id|, MAX_TASK_ID_LEN))
    else if Contains(id, "..") then Rejected(DotDotSegment)
    else Scan(id, 0)
  }

  /** Which characters offend, and how: separators before blanks, blanks before control characters,
      and dots only at the ends. */
  lemma OffenceExactly(id: string, k: nat)
    requires k < |id|
    ensures var c, offence := id[k], Offence(id, k);
            && (c == '/' || c == '\\' <==> offence == Some(PathSeparator(c)))
            && (IsWhitespace(c) <==> offence == Some(Whitespace(c)))
            && (IsControl(c) && !IsWhitespace(c) <==> offence == Some(ControlCharacter(c)))
            && (c as int >= 128 && !IsControl(c) && !IsWhitespace(c) <==> offence == Some(NonAscii(c)))
            && (c == '.' && k == 0 <==> offence == Some(LeadingDot))
            && (c == '.' && 0 < k == |id| - 1 <==> offence == Some(TrailingDot))
            && (IsIdChar(c) || (c == '.' && 0 < k < |id| - 1) <==> offence == None)
            && (33 <= c as int < 127 && !IsIdChar(c) && c != '.' && c != '/' && c != '\\'
                <==> offence == Some(DisallowedCharacter(c)))
  {}

  /** A rejection names what is wrong: nothing there, too long, two dots in a row, or else the first
      offending character. */
  lemma RejectsExactly(id: string, error: TaskIdError)
    ensures ValidateTaskId(id) == Rejected(error) <==>
            if All(IsWhitespace, id) then error == Empty
            else if |id| > 64 then error == TooLong(|id|, 64)
            else if exists k | 0 <= k < |id| - 1 :: id[k] == '.' && id[k + 1] == '.' then error == DotDotSegment
            else exists k | 0 <= k < |id| ::
                   Offence(id, k) == Some(error) && forall j | 0 <= j < k :: Offence(id, j) == None
  {
    hide Offence;
    TrimEmptyIffBlank(id);
    NoDotDotMeansSeparated(id);
    hide Contains, Trim;
  }

  // ----- The grammar the validator accepts

  function SplitDots(id: string): (runs: seq<string>)
    ensures |runs| > 0
    decreases |id|
  {
    match FindChar(id, '.', 0)
    case None => [id]
    case Some(i) => [id[..i]] + SplitDots(id[i + 1..])
  }

  ghost predicate IsRun(run: string) { run != [] && All(IsIdChar, run) }

  /** At most 64 characters of dot-separated, non-empty runs of id characters. */
  ghost predicate IsDottedId(id: string) {
    |id| <= MAX_TASK_ID_LEN && forall run | run in SplitDots(id) :: IsRun(run)
  }

  ghost predicate DotsSeparate(id: string) {
    && id != []
    && id[0] != '.' && id[|id| - 1] != '.'
    && (forall k | 0 <= k < |id| :: IsIdChar(id[k]) || id[k] == '.')
    && (forall k | 0 <= k < |id| - 1 :: id[k] == '.' ==> id[k + 1] != '.')
  }

  lemma {:induction false} RunsAreDotSeparated(id: string)
    ensures (forall run | run in SplitDots(id) :: IsRun(run)) <==> DotsSeparate(id)
    decreases |id|
  {
    match FindChar(id, '.', 0)
    case None =>
      assert SplitDots(id) == [id];
      assert id in SplitDots(id) && forall run | run in SplitDots(id) :: run == id;
    case Some(i) =>
      var run, rest := id[..i], id[i + 1..];
      assert SplitDots(id) == [run] + SplitDots(rest);
      hide SplitDots, IsRun, DotsSeparate;
      assert forall r :: r in [run] + SplitDots(rest) <==> r == run || r in SplitDots(rest);
      RunsAreDotSeparated(rest);
      SeparatedAtTheFirstDot(id, i);
  }

  lemma SeparatedAtTheFirstDot(id: string, i: nat)
    requires FindChar(id, '.', 0) == Some(i)
    ensures DotsSeparate(id) <==> IsRun(id[..i]) && DotsSeparate(id[i + 1..])
  {
    var run, rest := id[..i], id[i + 1..];
    assert forall k | 0 <= k < i :: id[k] == run[k] && id[k] != '.';
    assert forall k | 0 <= k < |rest| :: rest[k] == id[i + 1 + k];
    assert forall k | i + 1 <= k < |id| :: id[k] == rest[k - i - 1];
    if IsRun(run) && DotsSeparate(rest) {
      assert id[|id| - 1] == rest[|rest| - 1];
      forall k | 0 <= k < |id| - 1 && id[k] == '.' ensures id[k + 1] != '.' {
        assert k >= i && id[k + 1] == rest[k - i];
      }
    }
    if DotsSeparate(id) {
      assert i > 0 && i + 1 < |id|;
      assert rest[|rest| - 1] == id[|id| - 1] && rest[0] == id[i + 1];
    }
  }

  lemma NoDotDotMeansSeparated(id: string)
    ensures Contains(id, "..") <==> exists k | 0 <= k < |id| - 1 :: id[k] == '.' && id[k + 1] == '.'
  {
    var dots := "..";
    assert forall k: nat :: OccursAt(id, dots, k) ==> id[k + 0] == dots[0] && id[k + 1] == dots[1];
    assert forall k: nat | k < |id| - 1 :: id[k] == '.' && id[k + 1] == '.' ==> OccursAt(id, dots, k);
  }

  lemma DottedIsNotBlank(id: string)
    requires DotsSeparate(id)
    ensures Trim(id) != []
  {
    var pre, post := TrimWhileParts(IsWhitespace, id);
    assert !IsWhitespace(id[0]);
  }

  lemma ScanAcceptsSeparated(id: string)
    requires id != [] && !Contains(id, "..")
    ensures Scan(id, 0).Accepted? <==> DotsSeparate(id)
  {
    NoDotDotMeansSeparated(id);
    assert forall k | 0 <= k < |id| :: Offence(id, k).None? <==>
      IsIdChar(id[k]) || (id[k] == '.' && 0 < k < |id| - 1);
  }

  /** The validator accepts exactly the dotted ids. */
  lemma AcceptsExactlyTheGrammar(id: string)
    ensures ValidateTaskId(id).Accepted? <==> IsDottedId(id)
    ensures ValidateTaskId(id).Accepted? ==> ValidateTaskId(id).id == id
  {
    RunsAreDotSeparated(id);
    NoDotDotMeansSeparated(id);
    if DotsSeparate(id) { DottedIsNotBlank(id); }
    if id != [] && !Contains(id, "..") { ScanAcceptsSeparated(id); }
    if id == [] { TrimWhileUnique(IsWhitespace, id, [], [], []); }
  }

  /** More than one inner dot is accepted, as long as no two stand side by side. */
  lemma SeveralInnerDotsAreAccepted(a: string, b: string, c: string)
    requires IsRun(a) && IsRun(b) && IsRun(c) && |a| + |b| + |c| <= MAX_TASK_ID_LEN - 2
    ensures ValidateTaskId(a + ['.'] + b + ['.'] + c) == Accepted(a + ['.'] + b + ['.'] + c)
  {
    var id := a + ['.'] + b + ['.'] + c;
    DotsBetweenRuns(a, b, c);
    RunsAreDotSeparated(id);
    hide ValidateTaskId, SplitDots, DotsSeparate, IsRun;
    AcceptsExactlyTheGrammar(id);
  }

  lemma DotsBetweenRuns(a: string, b: string, c: string)
    requires IsRun(a) && IsRun(b) && IsRun(c)
    ensures DotsSeparate(a + ['.'] + b + ['.'] + c)
  {
    var id := a + ['.'] + b + ['.'] + c;
    assert forall k | 0 <= k < |a| :: id[k] == a[k] && id[k] != '.';
    assert forall k | |a| < k <= |a| + |b| :: id[k] == b[k - |a| - 1] && id[k] != '.';
    assert forall k | |a| + |b| + 1 < k < |id| :: id[k] == c[k - |a| - |b| - 2] && id[k] != '.';
  }

  /** Normalization of a text given layer by layer. */
  lemma NormalizeLayers(raw: string, d1: string, inner: string, d2: string, w1: string, core: string, w2: string)
    requires raw == d1 + inner + d2 && inner == w1 + core + w2
    requires Trimmed(IsWhitespace, raw) && Trimmed(IsDecoration, inner) && Trimmed(IsWhitespace, core)
    requires All(IsDecoration, d1) && All(IsDecoration, d2) && All(IsWhitespace, w1) && All(IsWhitespace, w2)
    ensures Normalize(raw) == core
  {
    TrimWhileUnique(IsWhitespace, raw, [], raw, []);
    TrimWhileUnique(IsDecoration, raw, d1, inner, d2);
    TrimWhileUnique(IsWhitespace, inner, w1, core, w2);
  }

  const DECORATION: string := "[]()\"'"

  lemma DecorationExactly(c: char)
    ensures IsDecoration(c) <==> c in DECORATION
  {
    assert DECORATION[0] == '[' && DECORATION[1] == ']' && DECORATION[2] == '(' && DECORATION[3] == ')'
           && DECORATION[4] == '"' && DECORATION[5] == '\'' && |DECORATION| == 6;
  }

  /** Whitespace, brackets and quotes, and whitespace again are peeled off both ends, as far as each
      goes and no further. */
  lemma NormalizeExactly(
      raw: string, s1: string, d1: string, w1: string, core: string, w2: string, d2: string, s2: string)
    requires raw == s1 + (d1 + (w1 + core + w2) + d2) + s2
    requires All(IsWhitespace, s1) && All(IsWhitespace, s2) && All(IsWhitespace, w1) && All(IsWhitespace, w2)
    requires (forall k | 0 <= k < |d1| :: d1[k] in DECORATION) && (forall k | 0 <= k < |d2| :: d2[k] in DECORATION)
    requires core != [] && !IsWhitespace(core[0]) && !IsWhitespace(core[|core| - 1])
    requires w1 == [] ==> core[0] !in DECORATION
    requires w2 == [] ==> core[|core| - 1] !in DECORATION
    requires d1 == [] ==> w1 == []
    requires d2 == [] ==> w2 == []
    ensures Normalize(raw) == core
  {
    forall c: char ensures IsDecoration(c) <==> c in DECORATION { DecorationExactly(c); }
    assert forall c: char :: IsWhitespace(c) ==> !IsDecoration(c);
    hide DECORATION;
    var inner := w1 + core + w2;
    var s := d1 + inner + d2;
    assert s[0] == (if d1 == [] then core[0] else d1[0]);
    assert s[|s| - 1] == (if d2 == [] then core[|core| - 1] else d2[|d2| - 1]);
    assert inner[0] == (if w1 == [] then core[0] else w1[0]);
    assert inner[|inner| - 1] == (if w2 == [] then core[|core| - 1] else w2[|w2| - 1]);
    hide IsDecoration, IsWhitespace;
    PeelOutside(raw, s1, s, s2);
    NormalizeLayers(s, d1, inner, d2, w1, core, w2);
  }

  lemma PeelOutside(raw: string, s1: string, s: string, s2: string)
    requires raw == s1 + s + s2 && All(IsWhitespace, s1) && All(IsWhitespace, s2) && Trimmed(IsWhitespace, s)
    ensures Normalize(raw) == Normalize(s)
  {
    TrimWhileUnique(IsWhitespace, raw, s1, s, s2);
    TrimmedStays(s);
  }

  /** Normalization leaves an accepted id alone, so the write side (which may normalize
      first) and the read side (which always does) name the same file. */
  lemma AcceptedIsNormalized(id: string)
    requires ValidateTaskId(id).Accepted?
    ensures Normalize(id) == id
  {
    assert DotsSeparate(id) by {
      hide ValidateTaskId;
      AcceptsExactlyTheGrammar(id);
      RunsAreDotSeparated(id);
    }
    hide ValidateTaskId, Normalize;
    NormalizeLayers(id, [], id, [], [], id, []);
  }

  /** Non-empty strings of id characters are fixed points of normalization. */
  lemma IdTokenIsNormalized(token: string)
    requires All(IsIdChar, token)
    ensures Normalize(token) == token
  {
    hide Normalize;
    NormalizeLayers(token, [], token, [], [], token, []);
  }

  /** A token of id characters is accepted unless it is empty or too long. */
  lemma IdTokenAcceptedUnlessTooLong(token: string)
    requires All(IsIdChar, token) && token != []
    ensures ValidateTaskId(token) == (if |token| <= MAX_TASK_ID_LEN then Accepted(token)
                                      else Rejected(TooLong(|token|, MAX_TASK_ID_LEN)))
  {
    assert DotsSeparate(token) by {
      assert forall k | 0 <= k < |token| :: token[k] != '.';
    }
    DottedIsNotBlank(token);
    NoDotDotMeansSeparated(token);
    ScanAcceptsSeparated(token);
  }

  /** Normalization is not idempotent on every input: a second pass changes the result
      exactly when the first one uncovered decoration behind inner whitespace. */
  lemma IdempotentUnlessDecorationRemains(raw: string)
    ensures Normalize(Normalize(raw)) == Normalize(raw) <==> Trimmed(IsDecoration, Normalize(raw))
  {
    var n := Normalize(raw);
    var _, _ := TrimWhileParts(IsWhitespace, TrimWhile(IsDecoration, Trim(raw)));
    assert Trimmed(IsWhitespace, n);
    hide TrimWhile, Normalize, Trimmed;
    NormalizeOfTrimmed(n);
    TrimShrinks(IsDecoration, n);
    TrimShrinks(IsWhitespace, TrimWhile(IsDecoration, n));
    if Trimmed(IsDecoration, n) { TrimmedStays(n); }
  }

  lemma NormalizeOfTrimmed(n: string)
    requires Trimmed(IsWhitespace, n)
    ensures Normalize(n) == Trim(TrimWhile(IsDecoration, n)) && Trim(n) == n
    ensures Trim(TrimWhile(IsDecoration, n)) == TrimWhile(IsWhitespace, TrimWhile(IsDecoration, n))
  {
    TrimmedStays(n);
  }

  /** Trimming leaves a text alone exactly when it is trimmed, and makes it shorter otherwise. */
  lemma TrimShrinks(p: char -> bool, s: string)
    ensures if Trimmed(p, s) then TrimWhile(p, s) == s else |TrimWhile(p, s)| < |s|
  {
    var pre, post := TrimWhileParts(p, s);
    if Trimmed(p, s) { TrimWhileUnique(p, s, [], s, []); }
    var core := TrimWhile(p, s);
    assert |s| == |pre| + |core| + |post|;
    hide TrimWhile;
    assert pre == [] && post == [] ==> s == core;
  }

  /** In front, only decoration up to `a`, whitespace up to `b`, decoration again, and not
      nothing but decoration from there on. */
  predicate HiddenInFront(s: string, a: nat, b: nat) {
    && a < b < |s| && All(IsDecoration, s[..a]) && All(IsWhitespace, s[a..b]) && IsDecoration(s[b])
    && !All(IsDecoration, s[b..])
  }

  /** The same from the end: only decoration from `b` on, whitespace from `a` on, decoration
      in front of it, and not nothing but decoration up to there. */
  predicate HiddenBehind(s: string, a: nat, b: nat) {
    && 0 < a < b <= |s| && All(IsDecoration, s[b..]) && All(IsWhitespace, s[a..b]) && IsDecoration(s[a - 1])
    && !All(IsDecoration, s[..a])
  }

  /** Whether the trimmed text hides decoration behind inner whitespace. */
  ghost predicate HidesDecoration(s: string) {
    (exists a: nat, b: nat :: HiddenInFront(s, a, b)) || (exists a: nat, b: nat :: HiddenBehind(s, a, b))
  }

  /** A trimmed text in the layers normalization peels off. */
  ghost predicate Layered(s: string, d1: string, w1: string, core: string, w2: string, d2: string) {
    && s == d1 + (w1 + core + w2) + d2
    && All(IsDecoration, d1) && All(IsWhitespace, w1) && All(IsWhitespace, w2) && All(IsDecoration, d2)
    && Trimmed(IsDecoration, w1 + core + w2) && Trimmed(IsWhitespace, core)
  }

  lemma LayersOf(raw: string) returns (d1: string, w1: string, w2: string, d2: string)
    ensures Layered(Trim(raw), d1, w1, Normalize(raw), w2, d2)
  {
    var s := Trim(raw);
    d1, d2 := TrimWhileParts(IsDecoration, s);
    w1, w2 := TrimWhileParts(IsWhitespace, TrimWhile(IsDecoration, s));
  }

  /** Where each layer shows in the text. */
  lemma LayerPositions(s: string, d1: string, w1: string, core: string, w2: string, d2: string)
    requires Layered(s, d1, w1, core, w2, d2)
    ensures var i, j := |d1| + |w1|, |d1| + |w1| + |core|;
            && |s| == j + |w2| + |d2|
            && (forall k | 0 <= k < |d1| :: IsDecoration(s[k])) && (forall k | |d1| <= k < i :: IsWhitespace(s[k]))
            && (forall k | i <= k < j :: s[k] == core[k - i])
            && (forall k | j <= k < j + |w2| :: IsWhitespace(s[k]))
            && (forall k | j + |w2| <= k < |s| :: IsDecoration(s[k]))
            && (|d1| < j + |w2| ==> !IsDecoration(s[|d1|]) && !IsDecoration(s[j + |w2| - 1]))
            && (i < j ==> !IsWhitespace(s[i]) && !IsWhitespace(s[j - 1]))
  {
    var inner := w1 + core + w2;
    assert |d1| < |d1| + |inner| ==> s[|d1|] == inner[0] && s[|d1| + |inner| - 1] == inner[|inner| - 1];
  }

  lemma FrontExactly(s: string, d1: string, w1: string, core: string, w2: string, d2: string)
    requires Layered(s, d1, w1, core, w2, d2)
    ensures (exists a: nat, b: nat :: HiddenInFront(s, a, b)) <==> core != [] && IsDecoration(core[0])
  {
    LayerPositions(s, d1, w1, core, w2, d2);
    hide Layered;
    var i, end := |d1| + |w1|, |s| - |d2|;
    if core != [] && IsDecoration(core[0]) {
      assert s[i..][end - 1 - i] == s[end - 1];
      assert HiddenInFront(s, |d1|, i);
    }
    forall a: nat, b: nat | HiddenInFront(s, a, b)
      ensures core != [] && IsDecoration(core[0])
    {
      FrontFixes(s, a, b);
      var q :| b <= q < |s| && !IsDecoration(s[q]);
      assert |d1| <= q < end && !IsDecoration(s[|d1|]) && IsWhitespace(s[a]);
      assert a == |d1|;
      assert b == i;
    }
  }

  lemma FrontFixes(s: string, a: nat, b: nat)
    requires HiddenInFront(s, a, b)
    ensures forall k | 0 <= k < a :: IsDecoration(s[k])
    ensures forall k | a <= k < b :: IsWhitespace(s[k])
    ensures exists k | b <= k < |s| :: !IsDecoration(s[k])
  {
    assert forall k | 0 <= k < a :: s[k] == s[..a][k];
    assert forall k | a <= k < b :: s[k] == s[a..b][k - a];
    assert forall k | 0 <= k < |s| - b :: s[b..][k] == s[b + k];
  }

  lemma BehindFixes(s: string, a: nat, b: nat)
    requires HiddenBehind(s, a, b)
    ensures forall k | b <= k < |s| :: IsDecoration(s[k])
    ensures forall k | a <= k < b :: IsWhitespace(s[k])
    ensures exists k | 0 <= k < a :: !IsDecoration(s[k])
  {
    assert forall k | b <= k < |s| :: s[k] == s[b..][k - b];
    assert forall k | a <= k < b :: s[k] == s[a..b][k - a];
    assert forall k | 0 <= k < a :: s[..a][k] == s[k];
  }

  lemma BehindExactly(s: string, d1: string, w1: string, core: string, w2: string, d2: string)
    requires Layered(s, d1, w1, core, w2, d2)
    ensures (exists a: nat, b: nat :: HiddenBehind(s, a, b)) <==> core != [] && IsDecoration(core[|core| - 1])
  {
    LayerPositions(s, d1, w1, core, w2, d2);
    hide Layered;
    var j, end := |d1| + |w1| + |core|, |s| - |d2|;
    if core != [] && IsDecoration(core[|core| - 1]) {
      assert s[..j][|d1|] == s[|d1|];
      assert HiddenBehind(s, j, end);
    }
    forall a: nat, b: nat | HiddenBehind(s, a, b)
      ensures core != [] && IsDecoration(core[|core| - 1])
    {
      BehindFixes(s, a, b);
      var q :| 0 <= q < a && !IsDecoration(s[q]);
      assert |d1| <= q < end && !IsDecoration(s[end - 1]) && IsWhitespace(s[b - 1]);
      assert b == end;
      assert a == j;
    }
  }

  /** Normalization is idempotent on exactly the inputs that hide no decoration behind inner
      whitespace. */
  lemma IdempotentExactlyWhen(raw: string)
    ensures Normalize(Normalize(raw)) == Normalize(raw) <==> !HidesDecoration(Trim(raw))
  {
    IdempotentUnlessDecorationRemains(raw);
    var s, core := Trim(raw), Normalize(raw);
    var d1, w1, w2, d2 := LayersOf(raw);
    hide Normalize, Trim, HiddenInFront, HiddenBehind, Layered;
    FrontExactly(s, d1, w1, core, w2, d2);
    BehindExactly(s, d1, w1, core, w2, d2);
  }

  /** An input of the failing kind: a bracketed id inside spaced brackets. */
  lemma SpacedBracketsNeedTwoPasses(id: string)
    requires id != [] && All(IsIdChar, id)
    ensures Normalize(['[', ' ', '['] + id + [']', ' ', ']']) == ['['] + id + [']']
    ensures Normalize(['['] + id + [']']) == id
  {
    hide Normalize;
    var open, close, blank := ['['], [']'], [' '];
    var once := open + id + close;
    var raw := open + (blank + once + blank) + close;
    assert raw == ['[', ' ', '['] + id + [']', ' ', ']'];
    NormalizeLayers(raw, open, blank + once + blank, close, blank, once, blank);
    NormalizeLayers(once, open, id, close, [], id, []);
  }
}
