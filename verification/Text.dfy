/** Character classes, trimming and substring search as the standard library of the
    program defines them.  Text is a sequence of Unicode scalar values. */
module Text {

  datatype Option<+T> = None | Some(value: T)

  // ----- Character classes

  /** The Unicode White_Space property. */
  predicate IsWhitespace(c: char) {
    var n := c as int;
    || 9 <= n <= 13 || n == 32 || n == 0x85 || n == 0xA0 || n == 0x1680
    || 0x2000 <= n <= 0x200A || n == 0x2028 || n == 0x2029 || n == 0x202F || n == 0x205F || n == 0x3000
  }

  /** A space or a tab. */
  predicate IsBlank(c: char) { c == ' ' || c == '\t' }

  /** The control characters (general category Cc). */
  predicate IsControl(c: char) { c as int < 32 || 127 <= c as int < 160 }

  predicate IsAscii(c: char) { c as int < 128 }

  predicate IsAsciiAlphanumeric(c: char) { 'a' <= c <= 'z' || 'A' <= c <= 'Z' || '0' <= c <= '9' }

  /** The characters of a task id proper. */
  predicate IsIdChar(c: char) { IsAsciiAlphanumeric(c) || c == '-' || c == '_' }

  predicate IsQuote(c: char) { c == '"' }

  // ----- ASCII case folding, length preserving

  function UpperChar(c: char): char { if 'a' <= c <= 'z' then (c as int - 32) as char else c }

  function LowerChar(c: char): char { if 'A' <= c <= 'Z' then (c as int + 32) as char else c }

  function Upper(s: string): (r: string)
    ensures |r| == |s| && forall i | 0 <= i < |s| :: r[i] == UpperChar(s[i])
  {
    seq(|s|, i requires 0 <= i < |s| => UpperChar(s[i]))
  }

  function Lower(s: string): (r: string)
    ensures |r| == |s| && forall i | 0 <= i < |s| :: r[i] == LowerChar(s[i])
  {
    seq(|s|, i requires 0 <= i < |s| => LowerChar(s[i]))
  }

  const LOWER_LETTERS: string := "abcdefghijklmnopqrstuvwxyz"
  const UPPER_LETTERS: string := "ABCDEFGHIJKLMNOPQRSTUVWXYZ"

  /** Folding exchanges the two alphabets letter by letter and touches nothing else. */
  lemma FoldingExactly(c: char)
    ensures |LOWER_LETTERS| == |UPPER_LETTERS| == 26
    ensures forall k | 0 <= k < 26 :: UpperChar(LOWER_LETTERS[k]) == UPPER_LETTERS[k] == UpperChar(UPPER_LETTERS[k])
    ensures forall k | 0 <= k < 26 :: LowerChar(UPPER_LETTERS[k]) == LOWER_LETTERS[k] == LowerChar(LOWER_LETTERS[k])
    ensures c !in LOWER_LETTERS && c !in UPPER_LETTERS ==> UpperChar(c) == c == LowerChar(c)
  {
    forall k | 0 <= k < 26
      ensures LOWER_LETTERS[k] as int == 97 + k && UPPER_LETTERS[k] as int == 65 + k
    {
      Letter(k);
    }
    if 'a' <= c <= 'z' { assert LOWER_LETTERS[c as int - 97] == c; }
    if 'A' <= c <= 'Z' { assert UPPER_LETTERS[c as int - 65] == c; }
  }

  lemma Letter(k: nat)
    requires k < 26
    ensures LOWER_LETTERS[k] as int == 97 + k && UPPER_LETTERS[k] as int == 65 + k
  {
    assert forall j | 0 <= j < 26 :: LOWER_LETTERS[j] as int == 97 + j && UPPER_LETTERS[j] as int == 65 + j;
  }

  // ----- Scanning and trimming

  predicate All(p: char -> bool, s: string) { forall k | 0 <= k < |s| :: p(s[k]) }

  /** `s[i..j]` is the longest run from `i` on whose characters satisfy `p`. */
  predicate RunEndsAt(p: char -> bool, s: string, i: nat, j: nat) {
    && i <= j <= |s|
    && (forall k | i <= k < j :: p(s[k]))
    && (j < |s| ==> !p(s[j]))
  }

  /** `s[j..e]` is the longest run up to `e` whose characters satisfy `p`. */
  predicate RunStartsAt(p: char -> bool, s: string, j: nat, e: nat) {
    && j <= e <= |s|
    && (forall k | j <= k < e :: p(s[k]))
    && (j > 0 ==> !p(s[j - 1]))
  }

  function SkipWhile(p: char -> bool, s: string, i: nat): (j: nat)
    requires i <= |s|
    ensures RunEndsAt(p, s, i, j)
  {
    SkipWhileExists(p, s, i);
    var j: nat :| j <= |s| && RunEndsAt(p, s, i, j);
    j
  }

  lemma SkipWhileExists(p: char -> bool, s: string, i: nat)
    requires i <= |s|
    ensures exists j: nat :: j <= |s| && RunEndsAt(p, s, i, j)
    decreases |s| - i
  {
    if i < |s| && p(s[i]) {
      SkipWhileExists(p, s, i + 1);
      var j: nat :| j <= |s| && RunEndsAt(p, s, i + 1, j);
      assert RunEndsAt(p, s, i, j);
    } else {
      assert RunEndsAt(p, s, i, i);
    }
  }

  function SkipBack(p: char -> bool, s: string, e: nat): (j: nat)
    requires e <= |s|
    ensures RunStartsAt(p, s, j, e)
  {
    SkipBackExists(p, s, e);
    var j: nat :| j <= e && RunStartsAt(p, s, j, e);
    j
  }

  lemma SkipBackExists(p: char -> bool, s: string, e: nat)
    requires e <= |s|
    ensures exists j: nat :: j <= e && RunStartsAt(p, s, j, e)
  {
    if e > 0 && p(s[e - 1]) {
      SkipBackExists(p, s, e - 1);
      var j: nat :| j <= e - 1 && RunStartsAt(p, s, j, e - 1);
      assert RunStartsAt(p, s, j, e);
    } else {
      assert RunStartsAt(p, s, e, e);
    }
  }

  function TrimStartWhile(p: char -> bool, s: string): string { s[SkipWhile(p, s, 0)..] }

  function TrimEndWhile(p: char -> bool, s: string): (r: string)
    ensures r <= s
  {
    s[..SkipBack(p, s, |s|)]
  }

  function TrimWhile(p: char -> bool, s: string): string { TrimEndWhile(p, TrimStartWhile(p, s)) }

  function TrimStart(s: string): string { TrimStartWhile(IsWhitespace, s) }

  function TrimEnd(s: string): (r: string)
    ensures r <= s
  {
    TrimEndWhile(IsWhitespace, s)
  }

  function Trim(s: string): string { TrimWhile(IsWhitespace, s) }

  predicate Trimmed(p: char -> bool, s: string) { s == [] || (!p(s[0]) && !p(s[|s| - 1])) }

  /** Trimming is determined by any way of peeling `p`-runs off both ends. */
  lemma TrimWhileUnique(p: char -> bool, s: string, pre: string, core: string, post: string)
    requires s == pre + core + post
    requires All(p, pre) && All(p, post) && Trimmed(p, core)
    ensures TrimWhile(p, s) == core
  {
    var i := SkipWhile(p, s, 0);
    var t := s[i..];
    if core == [] {
      assert forall k | 0 <= k < |s| :: p(s[k]);
      assert i == |s|;
    } else {
      assert s[|pre|] == core[0];
      assert forall k | 0 <= k < |pre| :: s[k] == pre[k];
      assert i == |pre|;
      assert t == core + post;
      var e := SkipBack(p, t, |t|);
      assert t[|core| - 1] == core[|core| - 1];
      assert forall k | |core| <= k < |t| :: t[k] == post[k - |core|];
      assert e == |core|;
    }
  }

  lemma TrimmedStays(s: string)
    requires Trimmed(IsWhitespace, s)
    ensures Trim(s) == s
  {
    TrimWhileUnique(IsWhitespace, s, [], s, []);
  }

  /** What trimming leaves is trimmed, and what it removed satisfies `p`. */
  lemma TrimWhileParts(p: char -> bool, s: string) returns (pre: string, post: string)
    ensures s == pre + TrimWhile(p, s) + post
    ensures All(p, pre) && All(p, post) && Trimmed(p, TrimWhile(p, s))
  {
    var i := SkipWhile(p, s, 0);
    var t := s[i..];
    var e := SkipBack(p, t, |t|);
    pre, post := s[..i], t[e..];
  }

  lemma TrimEmptyIffBlank(s: string)
    ensures Trim(s) == [] <==> All(IsWhitespace, s)
  {
    var pre, post := TrimWhileParts(IsWhitespace, s);
    if All(IsWhitespace, s) {
      assert s == s + [] + [];
      TrimWhileUnique(IsWhitespace, s, s, [], []);
    }
  }

  // ----- Substring search

  predicate OccursAt(s: string, w: string, i: nat) {
    i + |w| <= |s| && forall k | 0 <= k < |w| :: s[i + k] == w[k]
  }

  predicate Contains(s: string, w: string) { exists i: nat | i <= |s| :: OccursAt(s, w, i) }

  /** First occurrence of `w` at or after `from`. */
  function Find(s: string, w: string, from: nat): (r: Option<nat>)
    requires from <= |s|
    ensures r.Some? ==> from <= r.value && OccursAt(s, w, r.value)
                        && forall i: nat | from <= i < r.value :: !OccursAt(s, w, i)
    ensures r.None? ==> forall i: nat | from <= i :: !OccursAt(s, w, i)
    decreases |s| - from
  {
    if OccursAt(s, w, from) then Some(from)
    else if from < |s| then Find(s, w, from + 1)
    else None
  }

  /** First index at or after `from` whose character is `c`. */
  function FindChar(s: string, c: char, from: nat): (r: Option<nat>)
    requires from <= |s|
    ensures r.Some? ==> from <= r.value < |s| && s[r.value] == c
    ensures forall i | from <= i < (if r.Some? then r.value else |s|) :: s[i] != c
    decreases |s| - from
  {
    if from == |s| then None
    else if s[from] == c then Some(from)
    else FindChar(s, c, from + 1)
  }

  /** Index of the first `true`. */
  function FirstTrue(flags: seq<bool>): (r: Option<nat>)
    ensures r.Some? ==> r.value < |flags| && flags[r.value] && forall k | 0 <= k < r.value :: !flags[k]
    ensures r.None? ==> forall k | 0 <= k < |flags| :: !flags[k]
  {
    if flags == [] then None
    else if flags[0] then Some(0)
    else match FirstTrue(flags[1..])
      case None => None
      case Some(k) => Some(k + 1)
  }

  /** The occurrences a left-to-right scan finds when it resumes behind each match. */
  function FindAll(s: string, w: string, from: nat): (r: seq<nat>)
    requires from <= |s| && w != []
    decreases |s| - from
  {
    match Find(s, w, from)
    case None => []
    case Some(p) => [p] + FindAll(s, w, p + |w|)
  }

  /** `i` lies inside one of the matches of length `n` that start at `ps`. */
  ghost predicate InsideMatch(ps: seq<nat>, n: nat, i: nat) { exists k | 0 <= k < |ps| :: ps[k] <= i < ps[k] + n }

  /** `ps` are occurrences of `w` from `from` on, in order and without overlap. */
  ghost predicate SeparateMatches(s: string, w: string, from: nat, ps: seq<nat>) {
    && (forall k | 0 <= k < |ps| :: from <= ps[k] && OccursAt(s, w, ps[k]))
    && (forall j, k | 0 <= j < k < |ps| :: ps[j] + |w| <= ps[k])
  }

  lemma {:induction false} FindAllSound(s: string, w: string, from: nat)
    requires from <= |s| && w != []
    ensures SeparateMatches(s, w, from, FindAll(s, w, from))
    decreases |s| - from
  {
    hide OccursAt;
    var r := Find(s, w, from);
    if r.Some? {
      OccurrenceFits(s, w, r.value);
      var rest := FindAll(s, w, r.value + |w|);
      FindAllSound(s, w, r.value + |w|);
      assert FindAll(s, w, from) == [r.value] + rest;
    }
  }

  lemma OccurrenceFits(s: string, w: string, i: nat)
    requires OccursAt(s, w, i)
    ensures i + |w| <= |s|
  {}

  /** Every occurrence starts inside a reported one. */
  lemma {:induction false} FindAllCovers(s: string, w: string, from: nat, i: nat)
    requires from <= i && w != [] && OccursAt(s, w, i)
    ensures InsideMatch(FindAll(s, w, from), |w|, i)
    decreases |s| - from
  {
    hide OccursAt;
    OccurrenceFits(s, w, i);
    var p := Find(s, w, from).value;
    var ps := FindAll(s, w, from);
    assert ps[0] == p;
    if p + |w| <= i {
      FindAllCovers(s, w, p + |w|, i);
      var rest := FindAll(s, w, p + |w|);
      var k :| 0 <= k < |rest| && rest[k] <= i < rest[k] + |w|;
      assert ps[k + 1] == rest[k];
    }
  }
}
