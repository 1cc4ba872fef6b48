/** Trailing parenthesised groups of a task description: validation directives and
    role hints (src/plan_parse.rs, with the archetype vocabulary of src/agents/mod.rs). */
module TrailingGroups {
  import opened Text

  datatype Directive = Auto | Validate | NoValidate

  datatype Agent = Coder | Researcher | Debugger | Validator | Generalist | Planner

  const VALIDATE: string := "validate"
  const NO_VALIDATE: string := "no-validate"

  function ParseDirective(token: string): Directive {
    var word := Lower(Trim(token));
    if word == VALIDATE then Validate
    else if word == NO_VALIDATE then NoValidate
    else Auto
  }

  /** The archetype names, in the order they are tried. */
  const ARCHETYPES: seq<(string, Agent)> := [
    ("coder", Coder), ("researcher", Researcher), ("debugger", Debugger), ("validator", Validator),
    ("generalist", Generalist), ("deepbrain", Generalist), ("planner", Planner)
  ]

  function Lookup(table: seq<(string, Agent)>, word: string): (r: Option<Agent>)
    ensures r.Some? <==> exists i | 0 <= i < |table| :: table[i].0 == word
  {
    if table == [] then None
    else if table[0].0 == word then Some(table[0].1)
    else Lookup(table[1..], word)
  }

  function AgentFromStr(token: string): Option<Agent> { Lookup(ARCHETYPES, Lower(Trim(token))) }

  predicate IsRoleArchetype(token: string) { AgentFromStr(token).Some? }

  // ----- The opening parenthesis balancing a trailing ')'

  /** Right-to-left scan of `s[..i]` with `depth` closers still open. */
  function MatchOpenFrom(s: string, i: nat, depth: nat): (r: Option<nat>)
    requires i <= |s|
    ensures r.Some? ==> r.value < i && s[r.value] == '('
  {
    if i == 0 then None
    else if s[i - 1] == ')' then MatchOpenFrom(s, i - 1, depth + 1)
    else if s[i - 1] == '(' && depth > 0 then
      if depth == 1 then Some(i - 1) else MatchOpenFrom(s, i - 1, depth - 1)
    else MatchOpenFrom(s, i - 1, depth)
  }

  function MatchingOpen(s: string): (r: Option<nat>)
    ensures r.Some? ==> r.value < |s| && s[r.value] == '('
  {
    MatchOpenFrom(s, |s|, 0)
  }

  /** Closing minus opening parentheses in `s[j..]`. */
  function Surplus(s: string, j: nat): int
    requires j <= |s|
    decreases |s| - j
  {
    if j == |s| then 0
    else Surplus(s, j + 1) + (if s[j] == ')' then 1 else if s[j] == '(' then -1 else 0)
  }

  /** `open` balances the trailing ')' of `s`: the group `s[open..]` is balanced and no
      proper suffix of it is. */
  ghost predicate Balances(s: string, open: nat) {
    open < |s| && Surplus(s, open) == 0 && forall j | open < j < |s| :: Surplus(s, j) > 0
  }

  lemma {:induction false} MatchOpenFromBalances(s: string, i: nat, depth: nat)
    requires i < |s| && depth > 0 && depth == Surplus(s, i)
    requires forall j | i <= j < |s| :: Surplus(s, j) > 0
    ensures var r := MatchOpenFrom(s, i, depth);
            if r.Some? then Balances(s, r.value) else forall j | 0 <= j < |s| :: Surplus(s, j) > 0
  {
    if i > 0 {
      var d := Surplus(s, i - 1);
      if d > 0 { MatchOpenFromBalances(s, i - 1, d); }
    }
  }

  /** The scan finds the balancing parenthesis exactly when there is one. */
  lemma MatchingOpenIsTheBalance(s: string)
    requires s != [] && s[|s| - 1] == ')'
    ensures forall open: nat :: MatchingOpen(s) == Some(open) <==> Balances(s, open)
  {
    assert Surplus(s, |s| - 1) == 1;
    assert MatchingOpen(s) == MatchOpenFrom(s, |s| - 1, 1);
    MatchOpenFromBalances(s, |s| - 1, 1);
  }

  method MatchingOpenParen(text: string) returns (r: Option<nat>)
    ensures r == MatchingOpen(text)
  {
    var depth := 0;
    var index := |text|;
    while index > 0
      invariant 0 <= index <= |text| && 0 <= depth
      invariant MatchOpenFrom(text, index, depth) == MatchingOpen(text)
    {
      index := index - 1;
      if text[index] == ')' {
        depth := depth + 1;
      } else if text[index] == '(' && depth > 0 {
        depth := depth - 1;
        if depth == 0 { return Some(index); }
      }
    }
    return None;
  }

  // ----- Splitting

  /** The parenthesised groups ending `text[..end]`, right to left, as index pairs. */
  function GroupsAtEnd(text: string, end: nat): (gs: seq<(nat, nat)>)
    requires end <= |text|
    ensures forall g | g in gs :: g.0 < g.1 - 1 < end && text[g.0] == '(' && text[g.1 - 1] == ')'
    decreases end
  {
    if end > 0 && text[end - 1] == ')' then
      match MatchingOpen(text[..end])
      case None => []
      case Some(open) => [(open, end)] + GroupsAtEnd(text, |TrimEnd(text[..open])|)
    else []
  }

  function GroupText(text: string, g: (nat, nat)): string
    requires g.0 < g.1 - 1 < |text|
  {
    text[g.0 + 1..g.1 - 1]
  }

  /** The right-most group is the role slot unless it is the only one. */
  function Candidates(groups: seq<(nat, nat)>): seq<(nat, nat)> {
    if |groups| <= 1 then groups else groups[1..]
  }

  function Around(text: string, g: (nat, nat)): string
    requires g.0 < g.1 <= |text|
  {
    var before, after := TrimEnd(text[..g.0]), TrimStart(text[g.1..]);
    if before == [] then after else if after == [] then before else before + [' '] + after
  }

  function FirstDirective(text: string, groups: seq<(nat, nat)>): (string, Directive)
    requires forall g | g in groups :: g.0 < g.1 - 1 < |text|
  {
    if groups == [] then (text, Auto)
    else
      var directive := ParseDirective(GroupText(text, groups[0]));
      if directive == Auto then FirstDirective(text, groups[1..])
      else (Around(text, groups[0]), directive)
  }

  function SplitDirective(description: string): (string, Directive) {
    var text := Trim(description);
    FirstDirective(text, Candidates(GroupsAtEnd(text, |text|)))
  }

  lemma GroupsUnfold(text: string, end: nat)
    requires end <= |text|
    ensures GroupsAtEnd(text, end) ==
            if end > 0 && text[end - 1] == ')' && MatchingOpen(text[..end]).Some? then
              var open := MatchingOpen(text[..end]).value;
              [(open, end)] + GroupsAtEnd(text, |TrimEnd(text[..open])|)
            else []
  {}

  method CollectGroups(text: string) returns (groups: seq<(nat, nat)>)
    ensures groups == GroupsAtEnd(text, |text|)
  {
    hide *;
    groups := [];
    var end := |text|;
    while end > 0 && text[end - 1] == ')'
      invariant 0 <= end <= |text|
      invariant groups + GroupsAtEnd(text, end) == GroupsAtEnd(text, |text|)
      decreases end
    {
      GroupsUnfold(text, end);
      var open := MatchingOpenParen(text[..end]);
      if open == None { return; }
      groups := groups + [(open.value, end)];
      end := |TrimEnd(text[..open.value])|;
    }
    GroupsUnfold(text, end);
  }

  method SplitValidationDirective(description: string) returns (body: string, directive: Directive)
    ensures (body, directive) == SplitDirective(description)
  {
    var text := Trim(description);
    var groups := CollectGroups(text);
    var candidates := Candidates(groups);
    var i := 0;
    while i < |candidates|
      invariant 0 <= i <= |candidates|
      invariant FirstDirective(text, candidates[i..]) == FirstDirective(text, candidates)
    {
      var d := ParseDirective(GroupText(text, candidates[i]));
      if d != Auto { return Around(text, candidates[i]), d; }
      assert candidates[i..][1..] == candidates[i + 1..];
      i := i + 1;
    }
    return text, Auto;
  }

  function SplitRoleHint(description: string): (string, Option<string>) {
    var text := Trim(description);
    if text == [] || text[|text| - 1] != ')' then (text, None)
    else match MatchingOpen(text)
      case None => (text, None)
      case Some(open) =>
        var candidate := Trim(text[open + 1..|text| - 1]);
        if IsRoleArchetype(candidate) then (Trim(text[..open]), Some(Lower(candidate)))
        else (text, None)
  }

  // ----- What the two splitters recover

  predicate NoParens(s: string) { forall k | 0 <= k < |s| :: s[k] != '(' && s[k] != ')' }

  predicate Lowercase(s: string) { forall k | 0 <= k < |s| :: 'a' <= s[k] <= 'z' || s[k] == '-' }

  lemma WordHasNoParens(token: string)
    requires Lowercase(Lower(Trim(token)))
    ensures NoParens(token)
  {
    var pre, post := TrimWhileParts(IsWhitespace, token);
    var core := TrimWhile(IsWhitespace, token);
    assert core == Trim(token);
    hide Trim, TrimWhile, Lower, Lowercase, NoParens;
    LowercaseHasNoParens(core);
    BlanksHaveNoParens(pre);
    BlanksHaveNoParens(post);
    NoParensTogether(pre, core, post);
  }

  lemma NoParensTogether(a: string, b: string, c: string)
    requires NoParens(a) && NoParens(b) && NoParens(c)
    ensures NoParens(a + b + c)
  {}

  lemma LowercaseHasNoParens(core: string)
    requires Lowercase(Lower(core))
    ensures NoParens(core)
  {
    assert forall k | 0 <= k < |core| :: LowerChar(core[k]) == Lower(core)[k];
  }

  lemma BlanksHaveNoParens(blanks: string)
    requires All(IsWhitespace, blanks)
    ensures NoParens(blanks)
  {}

  lemma TrimIdempotent(s: string)
    ensures Trim(Trim(s)) == Trim(s)
  {
    var _, _ := TrimWhileParts(IsWhitespace, s);
    TrimWhileUnique(IsWhitespace, Trim(s), [], Trim(s), []);
  }

  lemma ArchetypesAreWords()
    ensures forall i | 0 <= i < |ARCHETYPES| ::
              Lowercase(ARCHETYPES[i].0) && ARCHETYPES[i].0 != VALIDATE && ARCHETYPES[i].0 != NO_VALIDATE
  {
    assert |VALIDATE| == 8 && |NO_VALIDATE| == 11 && VALIDATE[0] == 'v';
  }

  lemma ArchetypeWord(r: string)
    requires IsRoleArchetype(r)
    ensures NoParens(r) && ParseDirective(r) == Auto && IsRoleArchetype(Trim(r))
  {
    ArchetypesAreWords();
    WordHasNoParens(r);
    TrimIdempotent(r);
  }

  lemma DirectiveWord(v: string)
    requires ParseDirective(v) != Auto
    ensures NoParens(v)
  {
    WordHasNoParens(v);
  }

  /** Trimming stops at a tail whose ends are not blank. */
  lemma TrimBeforeTail(s: string, tail: string)
    requires tail != [] && Trimmed(IsWhitespace, tail)
    ensures Trim(s + tail) == TrimStart(s) + tail
  {
    var i := SkipWhile(IsWhitespace, s, 0);
    assert s + tail == s[..i] + (s[i..] + tail) + [];
    TrimWhileUnique(IsWhitespace, s + tail, s[..i], s[i..] + tail, []);
  }

  lemma TrimAbsorbs(s: string, w: string)
    requires All(IsWhitespace, w)
    ensures Trim(s + w) == Trim(s)
  {
    var pre, post := TrimWhileParts(IsWhitespace, s);
    assert s + w == pre + Trim(s) + (post + w);
    TrimWhileUnique(IsWhitespace, s + w, pre, Trim(s), post + w);
  }

  lemma {:induction false} ScanInside(s: string, open: nat, i: nat)
    requires open < i <= |s| && s[open] == '('
    requires forall k | open < k < i :: s[k] != '(' && s[k] != ')'
    ensures MatchOpenFrom(s, i, 1) == Some(open)
    decreases i
  {
    if i > open + 1 { ScanInside(s, open, i - 1); }
  }

  function Group(g: string): (r: string)
    ensures |r| == |g| + 2 && r[0] == '(' && r[|r| - 1] == ')' && r[1..|r| - 1] == g
  {
    ['('] + g + [')']
  }

  lemma LastGroup(x: string, g: string)
    requires NoParens(g)
    ensures MatchingOpen(x + Group(g)) == Some(|x|)
  {
    var s := x + Group(g);
    assert s[|s| - 1] == ')' && s[|x|] == '(';
    assert forall k | |x| < k < |s| - 1 :: s[k] == g[k - |x| - 1];
    ScanInside(s, |x|, |s| - 1);
  }

  lemma GroupsStep(text: string, x: string, g: string)
    requires x + Group(g) <= text && NoParens(g)
    ensures var end := |x| + |g| + 2;
            GroupsAtEnd(text, end) == [(|x|, end)] + GroupsAtEnd(text, |TrimEnd(x)|)
            && GroupText(text, (|x|, end)) == g
  {
    hide MatchingOpen, TrimEnd, NoParens;
    var end := |x| + |g| + 2;
    assert text[..end] == x + Group(g);
    LastGroup(x, g);
    assert text[..|x|] == x;
    assert text[end - 1] == (x + Group(g))[end - 1];
    assert text[|x| + 1..end - 1] == text[..end][|x| + 1..end - 1] == Group(g)[1..|g| + 1];
  }

  lemma {:induction false} GroupsOfPrefix(text: string, t: string, end: nat)
    requires t <= text && end <= |t|
    ensures GroupsAtEnd(text, end) == GroupsAtEnd(t, end)
    ensures forall g | g in GroupsAtEnd(t, end) :: GroupText(text, g) == GroupText(t, g)
    decreases end
  {
    hide MatchingOpen, TrimEnd;
    assert text[..end] == t[..end];
    if end > 0 && t[end - 1] == ')' && MatchingOpen(t[..end]).Some? {
      var open := MatchingOpen(t[..end]).value;
      assert text[..open] == t[..open];
      GroupsOfPrefix(text, t, |TrimEnd(t[..open])|);
      assert GroupText(text, (open, end)) == GroupText(t, (open, end));
    }
  }

  lemma {:induction false} FirstDirectiveFinds(text: string, groups: seq<(nat, nat)>)
    requires forall g | g in groups :: g.0 < g.1 - 1 < |text|
    ensures var (body, v) := FirstDirective(text, groups);
            if v == Auto then body == text && forall g | g in groups :: ParseDirective(GroupText(text, g)) == Auto
            else exists g | g in groups :: ParseDirective(GroupText(text, g)) == v && body == Around(text, g)
  {
    if groups != [] {
      assert groups == [groups[0]] + groups[1..];
      FirstDirectiveFinds(text, groups[1..]);
    }
  }

  lemma TrimmedProse(d: string, w: string)
    requires All(IsWhitespace, w)
    ensures Trim(TrimStart(d + w)) == Trim(d) && TrimEnd(TrimStart(d + w)) == Trim(d)
  {
    TrimAbsorbs(d, w);
    TrimIdempotentOnStart(d + w);
  }

  lemma GroupSlices(x: string, g: string)
    requires NoParens(g)
    ensures var s := x + Group(g);
            && s != [] && s[|s| - 1] == ')' && MatchingOpen(s) == Some(|x|)
            && s[..|x|] == x && s[|x| + 1..|s| - 1] == g
  {
    LastGroup(x, g);
  }

  lemma RoleSlot(d: string, w: string, r: string)
    requires All(IsWhitespace, w) && NoParens(r)
    ensures Trim(d + w + Group(r)) == TrimStart(d + w) + Group(r)
    ensures Trim(TrimStart(d + w)) == Trim(d) && TrimEnd(TrimStart(d + w)) == Trim(d)
  {
    TrimBeforeTail(d + w, Group(r));
    TrimmedProse(d, w);
  }

  /** The role hint printed last is recovered, with the prose before it trimmed. */
  lemma RoleRoundTrip(d: string, w: string, r: string)
    requires All(IsWhitespace, w) && IsRoleArchetype(r)
    ensures SplitRoleHint(d + w + Group(r)) == (Trim(d), Some(Lower(Trim(r))))
  {
    hide Trim, TrimStart, TrimEnd, MatchingOpen, Group;
    ArchetypeWord(r);
    RoleSlot(d, w, r);
    GroupSlices(TrimStart(d + w), r);
  }

  lemma TrimIdempotentOnStart(s: string)
    ensures Trim(TrimStart(s)) == Trim(s)
  {
    var i := SkipWhile(IsWhitespace, s, 0);
    var t := TrimStart(s);
    var e := SkipBack(IsWhitespace, t, |t|);
    assert t == [] + Trim(s) + t[e..];
    TrimWhileUnique(IsWhitespace, t, [], Trim(s), t[e..]);
  }

  /** The two right-most groups of `x(v) (r)`. */
  lemma TwoGroups(x: string, v: string, w2: string, r: string)
    requires All(IsWhitespace, w2) && NoParens(v) && NoParens(r)
    ensures var text := x + Group(v) + w2 + Group(r);
            var groups := GroupsAtEnd(text, |text|);
            |groups| >= 2 && groups[1] == (|x|, |x| + |v| + 2) && GroupText(text, groups[1]) == v
  {
    hide *;
    var xv := x + Group(v);
    var text := xv + w2 + Group(r);
    EndsInParen(x, v, w2);
    GroupsStep(text, xv + w2, r);
    assert x + Group(v) <= text;
    GroupsStep(text, x, v);
  }

  lemma EndsInParen(x: string, v: string, w: string)
    requires All(IsWhitespace, w)
    ensures TrimEnd(x + Group(v) + w) == x + Group(v)
  {
    TrimEndStops(x + Group(v), w);
  }

  /** What remains of `x(v) (r)` when `(v)` is cut out. */
  lemma CutGroup(x: string, v: string, w2: string, r: string)
    requires All(IsWhitespace, w2)
    ensures var text := x + Group(v) + w2 + Group(r);
            Around(text, (|x|, |x| + |v| + 2)) == (if TrimEnd(x) == [] then [] else TrimEnd(x) + [' ']) + Group(r)
  {
    var text := x + Group(v) + w2 + Group(r);
    assert text[..|x|] == x;
    assert text[|x| + |v| + 2..] == w2 + Group(r);
    TrimStartStops(w2, Group(r));
    hide TrimStart, TrimEnd;
  }

  lemma SecondGroupDecides(description: string)
    requires var text := Trim(description);
             var groups := GroupsAtEnd(text, |text|);
             |groups| >= 2 && ParseDirective(GroupText(text, groups[1])) != Auto
    ensures var text := Trim(description);
            var g := GroupsAtEnd(text, |text|)[1];
            SplitDirective(description) == (Around(text, g), ParseDirective(GroupText(text, g)))
  {
    hide Trim, GroupsAtEnd, ParseDirective, Around, GroupText;
  }

  lemma DirectiveText(d: string, w1: string, v: string, w2: string, r: string)
    requires All(IsWhitespace, w1)
    ensures Trim(d + w1 + Group(v) + w2 + Group(r)) == TrimStart(d + w1) + Group(v) + w2 + Group(r)
  {
    var tail := Group(v) + w2 + Group(r);
    TrimBeforeTail(d + w1, tail);
    assert d + w1 + Group(v) + w2 + Group(r) == d + w1 + tail;
    assert TrimStart(d + w1) + tail == TrimStart(d + w1) + Group(v) + w2 + Group(r);
  }

  /** A directive printed before the role hint is recovered together with it. */
  lemma DirectiveAndRoleRoundTrip(d: string, w1: string, v: string, w2: string, r: string)
    requires All(IsWhitespace, w1) && All(IsWhitespace, w2)
    requires ParseDirective(v) != Auto && IsRoleArchetype(r)
    ensures var (rest, directive) := SplitDirective(d + w1 + Group(v) + w2 + Group(r));
            directive == ParseDirective(v) && SplitRoleHint(rest) == (Trim(d), Some(Lower(Trim(r))))
  {
    var t := Trim(d);
    var blank := if t == [] then [] else [' '];
    assert All(IsWhitespace, blank);
    hide *;
    DirectiveWord(v);
    ArchetypeWord(r);
    DirectiveText(d, w1, v, w2, r);
    TrimmedProse(d, w1);
    var x := TrimStart(d + w1);
    TwoGroups(x, v, w2, r);
    CutGroup(x, v, w2, r);
    SecondGroupDecides(d + w1 + Group(v) + w2 + Group(r));
    TrimIdempotent(d);
    RoleRoundTrip(t, blank, r);
    assert (if t == [] then [] else t + [' ']) + Group(r) == t + blank + Group(r);
  }

  lemma TrimEndStops(s: string, w: string)
    requires All(IsWhitespace, w) && s != [] && !IsWhitespace(s[|s| - 1])
    ensures TrimEnd(s + w) == s
  {
    var e := SkipBack(IsWhitespace, s + w, |s + w|);
    assert forall k | |s| <= k < |s + w| :: (s + w)[k] == w[k - |s|];
    assert (s + w)[|s| - 1] == s[|s| - 1];
    assert e == |s|;
  }

  lemma TrimStartStops(w: string, s: string)
    requires All(IsWhitespace, w) && s != [] && !IsWhitespace(s[0])
    ensures TrimStart(w + s) == s
  {
    assert (w + s)[|w|] == s[0];
    assert forall k | 0 <= k < |w| :: (w + s)[k] == w[k];
    assert SkipWhile(IsWhitespace, w + s, 0) == |w|;
  }

  lemma GroupsBeforeRole(x: string, t: string, r: string)
    requires NoParens(r) && t == TrimEnd(x)
    ensures var text := x + Group(r);
            var groups := GroupsAtEnd(text, |text|);
            && |groups| >= 1 && GroupText(text, groups[0]) == r && groups[1..] == GroupsAtEnd(t, |t|)
            && forall g | g in groups[1..] :: GroupText(text, g) == GroupText(t, g)
  {
    hide *;
    var text := x + Group(r);
    GroupsStep(text, x, r);
    GroupsOfPrefix(text, t, |t|);
  }

  /** Prose followed by a role hint carries a directive exactly when one of the prose's
      own trailing groups spells a reserved word. */
  lemma RoleAloneIsAuto(d: string, w: string, r: string)
    requires All(IsWhitespace, w) && IsRoleArchetype(r)
    ensures var t := Trim(d);
            var (rest, directive) := SplitDirective(d + w + Group(r));
            && (directive == Auto <==>
                forall g | g in GroupsAtEnd(t, |t|) :: ParseDirective(GroupText(t, g)) == Auto)
            && (directive == Auto ==> SplitRoleHint(rest) == (t, Some(Lower(Trim(r)))))
  {
    hide Trim, TrimStart, TrimEnd, GroupsAtEnd, FirstDirective, GroupText, SplitRoleHint, ParseDirective;
    ArchetypeWord(r);
    RoleSlot(d, w, r);
    var t, text := Trim(d), TrimStart(d + w) + Group(r);
    GroupsBeforeRole(TrimStart(d + w), t, r);
    var groups := GroupsAtEnd(text, |text|);
    FirstDirectiveFinds(text, Candidates(groups));
    RoleRoundTrip(d, w, r);
    SplitRoleHintOfTrimmed(d + w + Group(r));
  }

  lemma SplitRoleHintOfTrimmed(s: string)
    ensures SplitRoleHint(Trim(s)) == SplitRoleHint(s)
  {
    TrimIdempotent(s);
    hide Trim, MatchingOpen, IsRoleArchetype, Lower;
  }

  /** No typo turns validation off: a directive comes from a balanced trailing group that
      is exactly the reserved word, up to case and surrounding whitespace. */
  lemma DirectiveNeedsTheExactWord(description: string)
    ensures var t := Trim(description);
            var v := SplitDirective(description).1;
            v != Auto ==> exists g | g in GroupsAtEnd(t, |t|) ::
              Balances(t[..g.1], g.0)
              && Lower(Trim(GroupText(t, g))) == (if v == NoValidate then NO_VALIDATE else VALIDATE)
  {
    var t := Trim(description);
    var groups := GroupsAtEnd(t, |t|);
    FirstDirectiveFinds(t, Candidates(groups));
    GroupsBalance(t, |t|);
  }

  lemma {:induction false} GroupsBalance(t: string, end: nat)
    requires end <= |t|
    ensures forall g | g in GroupsAtEnd(t, end) :: Balances(t[..g.1], g.0)
    decreases end
  {
    if end > 0 && t[end - 1] == ')' && MatchingOpen(t[..end]).Some? {
      var open := MatchingOpen(t[..end]).value;
      MatchingOpenIsTheBalance(t[..end]);
      GroupsBalance(t, |TrimEnd(t[..open])|);
    }
  }
}
