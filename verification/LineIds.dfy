/** Where a task line carries its id, and what is left as its description, over the characters
    of the line (src/plan_parse.rs). */
module LineIds {
  import opened Text
  import opened TaskId
  import opened TrailingGroups
  import opened TaskLines
  import opened HeadGrammar

  // ----- The box

  /** A head that ends with its box is the head of every line it starts. */
  lemma HeadStays(head: string, rest: string, b: nat)
    requires HeadBox(head) == Some((b, |head|))
    ensures HeadBox(head + rest) == Some((b, |head|))
  {
    hide HeadBox, IsBoxWith, IsQuotes, IsMarker, AreBlanks;
    HeadBoxIsTheRegex(head, b, |head|);
    var i: nat, j: nat, k: nat :| IsHead(head, i, j, k, b, |head|);
    HeadExtends(head, rest, i, j, k, b);
    HeadBoxIsTheRegex(head + rest, b, |head|);
  }

  lemma HeadExtends(head: string, rest: string, i: nat, j: nat, k: nat, b: nat)
    requires IsHead(head, i, j, k, b, |head|)
    ensures IsHead(head + rest, i, j, k, b, |head|)
  {
    var line := head + rest;
    assert forall p | 0 <= p < |head| :: line[p] == head[p];
    var m: nat, n: nat :| IsBoxWith(head, b, |head|, m, n);
    assert IsBoxWith(line, b, |head|, m, n);
  }

  /** The box is ticked exactly when it holds an `x` of either case. */
  lemma CheckboxExactly(line: string, n: nat)
    requires ParseTaskLineAt(line, n).Some?
    ensures var t := ParseTaskLineAt(line, n).value;
            t.checkbox == Checked <==>
            exists p | t.checkboxSpan.0 < p < t.checkboxSpan.1 - 1 :: line[p] == 'x' || line[p] == 'X'
  {
    hide *;
    var b, e := ParsedBox(line, n);
    BoxSound(line, b, e);
    var m: nat, k: nat :| IsBoxWith(line, b, e, m, k);
    BoxStateMeans(line, b, e, m, k);
  }

  lemma ParsedBox(line: string, n: nat) returns (b: nat, e: nat)
    requires ParseTaskLineAt(line, n).Some?
    ensures var t := ParseTaskLineAt(line, n).value;
            && t.checkboxSpan == (b, e) && b + 2 <= e <= |line| && BoxEnd(line, b) == Some(e)
            && t.checkbox == BoxState(line[b + 1..e - 1])
  {
    hide ParseRest, BoxEnd, BoxStart, BoxState;
    b, e := HeadBox(line).value.0, HeadBox(line).value.1;
  }

  lemma BoxStateMeans(line: string, b: nat, e: nat, m: nat, k: nat)
    requires IsBoxWith(line, b, e, m, k)
    ensures BoxState(line[b + 1..e - 1]) == Checked <==> exists p | b < p < e - 1 :: line[p] == 'x' || line[p] == 'X'
  {
    var inner, pre, core, post := line[b + 1..e - 1], line[b + 1..m], line[m..k], line[k..e - 1];
    assert inner == pre + core + post;
    TrimWhileUnique(IsWhitespace, inner, pre, core, post);
    if m < k {
      assert core == [line[m]];
    } else {
      assert core == [];
    }
  }

  // ----- The id

  /** What may stand in front of an id. */
  const BEFORE_ID: string := " \t[(*_`\"'"

  /** `t-` and at least one more letter, digit, dash or underscore. */
  predicate IsPlainId(id: string) {
    && |id| >= 3 && (id[0] == 't' || id[0] == 'T') && id[1] == '-'
    && forall k | 0 <= k < |id| ::
         'a' <= id[k] <= 'z' || 'A' <= id[k] <= 'Z' || '0' <= id[k] <= '9' || id[k] == '-' || id[k] == '_'
  }

  /** Behind nothing but decoration `rest[i..j]` is an id, and the word ends with it. */
  predicate CarriesIdAt(rest: string, i: nat, j: nat) {
    && i <= j <= |rest| && (forall k | 0 <= k < i :: rest[k] in BEFORE_ID)
    && IsPlainId(rest[i..j]) && (j < |rest| ==> !IsIdChar(rest[j]))
  }

  lemma OpeningExactly(c: char)
    ensures c in BEFORE_ID <==> IsIdDecoration(c)
  {
    assert BEFORE_ID[0] == ' ' && BEFORE_ID[1] == '\t' && BEFORE_ID[2] == '[' && BEFORE_ID[3] == '('
           && BEFORE_ID[4] == '*' && BEFORE_ID[5] == '_' && BEFORE_ID[6] == '`' && BEFORE_ID[7] == '"'
           && BEFORE_ID[8] == '\'' && |BEFORE_ID| == 9;
  }

  lemma PlainExactly(id: string)
    requires All(IsIdChar, id)
    ensures IsPlainId(id) <==> IsTaskIdToken(id)
  {
    if |id| >= 3 { assert id[2..][0] == id[2]; }
    forall k | 0 <= k < |id| ensures IsIdChar(id[k]) {}
  }

  /** The line's id starts and stops where the leading token does. */
  lemma CarriedIsLeading(rest: string, i: nat, j: nat)
    ensures CarriesIdAt(rest, i, j) <==>
            LeadingToken(rest).Some? && LeadingToken(rest).value.start == i && LeadingToken(rest).value.stop == j
            && IsTaskIdToken(rest[i..j])
  {
    hide IsTaskIdToken, SkipClosers, CountOpeners;
    forall c: char ensures c in BEFORE_ID <==> IsIdDecoration(c) { OpeningExactly(c); }
    hide BEFORE_ID;
    if CarriesIdAt(rest, i, j) {
      var id := rest[i..j];
      assert id[0] == rest[i];
      RunEndsUnique(IsIdDecoration, rest, 0, i);
      assert forall k | i <= k < j :: rest[k] == id[k - i] && IsIdChar(rest[k]);
      RunEndsUnique(IsIdChar, rest, i, j);
      PlainExactly(id);
    }
    if LeadingToken(rest).Some? && LeadingToken(rest).value.start == i && LeadingToken(rest).value.stop == j {
      PlainExactly(rest[i..j]);
    }
  }

  // ----- The decoration behind it

  /** What may stand behind an id, brackets aside. */
  const BEHIND_ID: string := "*_`\"'"

  predicate IsCloser(c: char) { c == ']' || c == ')' }

  /** How many closing brackets a text holds, and how many opening ones. */
  function Closers(s: string): nat { multiset(s)[']'] + multiset(s)[')'] }

  function Openers(s: string): nat { multiset(s)['['] + multiset(s)['('] }

  /** `s[end..past]` is the longest stretch of closing decoration with at most `budget` brackets. */
  predicate ClosesAt(s: string, end: nat, past: nat, budget: nat) {
    && end <= past <= |s|
    && (forall k | end <= k < past :: s[k] in BEHIND_ID || IsCloser(s[k]))
    && Closers(s[end..past]) <= budget
    && (past < |s| ==> s[past] !in BEHIND_ID && (IsCloser(s[past]) ==> Closers(s[end..past]) == budget))
  }

  lemma ClosingExactly(c: char)
    ensures c in BEHIND_ID <==> IsEmphasis(c)
    ensures c in BEHIND_ID ==> !IsCloser(c)
  {
    assert BEHIND_ID[0] == '*' && BEHIND_ID[1] == '_' && BEHIND_ID[2] == '`' && BEHIND_ID[3] == '"'
           && BEHIND_ID[4] == '\'' && |BEHIND_ID| == 5;
  }

  lemma ClosersSplit(s: string, end: nat, past: nat)
    requires end < past <= |s|
    ensures Closers(s[end..past]) == (if IsCloser(s[end]) then 1 else 0) + Closers(s[end + 1..past])
  {
    assert s[end..past] == [s[end]] + s[end + 1..past];
  }

  lemma {:induction false} OpenersCounted(s: string)
    ensures CountOpeners(s) == Openers(s)
  {
    if s != [] {
      var init, last := s[..|s| - 1], s[|s| - 1];
      assert s == init + [last];
      OpenersCounted(init);
    }
  }

  /** The scan behind the id stops exactly there. */
  lemma {:induction false} ClosersExactly(s: string, end: nat, past: nat, budget: nat)
    requires end <= |s|
    ensures SkipClosers(s, end, budget) == past <==> ClosesAt(s, end, past, budget)
    decreases |s| - end
  {
    forall c: char ensures c in BEHIND_ID <==> IsEmphasis(c) { ClosingExactly(c); }
    forall c: char | c in BEHIND_ID ensures !IsCloser(c) { ClosingExactly(c); }
    hide BEHIND_ID, Closers;
    NoClosers(s[end..end]);
    if end < |s| {
      var closes := IsCloser(s[end]) && budget > 0;
      if closes {
        ClosersExactly(s, end + 1, past, budget - 1);
      } else if IsEmphasis(s[end]) {
        ClosersExactly(s, end + 1, past, budget);
      }
      if end < past <= |s| { ClosersSplit(s, end, past); }
      if past == end { assert s[end..past] == s[end..end]; }
    }
  }

  lemma NoClosers(s: string)
    requires s == []
    ensures Closers(s) == 0
  {}

  // ----- The rest of the line

  /** The rest of a line carries an id exactly when it starts with one behind decoration; what
      follows its closing decoration, or without an id everything, is the description. */
  lemma IdExactly(rest: string, i: nat, j: nat)
    requires CarriesIdAt(rest, i, j)
    ensures var r := ParseRest(rest);
            && r.taskId == Some(rest[i..j]) && r.idSpan == Some((i, j))
            && forall past: nat | ClosesAt(rest, j, past, Openers(rest[..i])) :: r.description == Trim(rest[past..])
  {
    hide SplitDirective, SplitRoleHint, Trim, Normalize, SkipClosers, ClosesAt, IsTaskIdToken, Openers, CountOpeners;
    CarriedIsLeading(rest, i, j);
    IdTokenIsNormalized(rest[i..j]);
    OpenersCounted(rest[..i]);
    forall past: nat | ClosesAt(rest, j, past, Openers(rest[..i]))
      ensures LeadingToken(rest).value.past == past
    {
      ClosersExactly(rest, j, past, Openers(rest[..i]));
    }
  }

  lemma NoIdExactly(rest: string)
    requires forall i: nat, j: nat :: !CarriesIdAt(rest, i, j)
    ensures var r := ParseRest(rest); r.taskId == None && r.idSpan == None && r.description == Trim(rest)
  {
    hide SplitDirective, SplitRoleHint, Trim, Normalize, LeadingToken, CarriesIdAt, IsTaskIdToken;
    if LeadingToken(rest).Some? {
      var t := LeadingToken(rest).value;
      assert !CarriesIdAt(rest, t.start, t.stop);
      CarriedIsLeading(rest, t.start, t.stop);
    }
  }
}
