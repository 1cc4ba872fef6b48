/** What a task line says: its trailing groups, and the parse of every line that is written in one
    of the plan's forms (src/plan_parse.rs, src/agents/mod.rs). */
module LineForms {
  import opened Text
  import opened TaskId
  import opened TrailingGroups
  import opened TaskLines
  import opened HeadGrammar
  import opened LineIds

  // ----- The two vocabularies

  /** The archetype words and what they name. */
  lemma ArchetypesExactly(token: string)
    ensures var word, agent := Lower(Trim(token)), AgentFromStr(token);
            && (agent == Some(Coder) <==> word == "coder")
            && (agent == Some(Researcher) <==> word == "researcher")
            && (agent == Some(Debugger) <==> word == "debugger")
            && (agent == Some(Validator) <==> word == "validator")
            && (agent == Some(Generalist) <==> word == "generalist" || word == "deepbrain")
            && (agent == Some(Planner) <==> word == "planner")
  {
    var word := Lower(Trim(token));
    hide Lower, Trim;
    WordsDiffer();
    LookupStep(ARCHETYPES, word);
    LookupStep(ARCHETYPES[1..], word);
    LookupStep(ARCHETYPES[2..], word);
    LookupStep(ARCHETYPES[3..], word);
    LookupStep(ARCHETYPES[4..], word);
    LookupStep(ARCHETYPES[5..], word);
    LookupStep(ARCHETYPES[6..], word);
  }

  lemma LookupStep(table: seq<(string, Agent)>, word: string)
    requires table != []
    ensures Lookup(table, word) == if table[0].0 == word then Some(table[0].1) else Lookup(table[1..], word)
  {}

  lemma WordsDiffer()
    ensures "coder"[0] == 'c' && "researcher"[0] == 'r' && "debugger"[2] == 'b' && "deepbrain"[2] == 'e'
            && "validator"[0] == 'v' && "generalist"[0] == 'g' && "planner"[0] == 'p'
  {}

  /** The group names an archetype, in any casing and padding. */
  predicate NamesRole(r: string) {
    var word := Lower(Trim(r));
    || word == "coder" || word == "researcher" || word == "debugger" || word == "validator"
    || word == "generalist" || word == "deepbrain" || word == "planner"
  }

  /** The directive a group spells, in any casing and padding. */
  predicate Spells(v: string, directive: Directive) {
    match directive
    case Auto => Lower(Trim(v)) != "validate" && Lower(Trim(v)) != "no-validate"
    case Validate => Lower(Trim(v)) == "validate"
    case NoValidate => Lower(Trim(v)) == "no-validate"
  }

  lemma RoleWordsExactly(r: string)
    ensures IsRoleArchetype(r) <==> NamesRole(r)
  {
    hide Lower, Trim, AgentFromStr;
    ArchetypesExactly(r);
    if IsRoleArchetype(r) {
      var a := AgentFromStr(r).value;
      assert a == Coder || a == Researcher || a == Debugger || a == Validator || a == Generalist || a == Planner;
    }
  }

  lemma DirectiveWordsExactly(v: string, directive: Directive)
    ensures ParseDirective(v) == directive <==> Spells(v, directive)
  {
    hide Lower, Trim;
    assert "validate"[0] == 'v' && "no-validate"[0] == 'n';
  }

  // ----- The role hint

  /** The text ends in the group `(g)`, and the group names a role. */
  predicate EndsInRole(t: string, x: string, g: string) { t == x + Group(g) && NamesRole(g) }

  /** The hint is the role the text ends in, and the body what stands before it; a text that ends
      in no role is its own body. */
  lemma RoleHintExactly(s: string)
    ensures forall x, g :: EndsInRole(Trim(s), x, g) ==> SplitRoleHint(s) == (Trim(x), Some(Lower(Trim(g))))
    ensures (forall x, g :: !EndsInRole(Trim(s), x, g)) ==> SplitRoleHint(s) == (Trim(s), None)
  {
    hide Trim, Lower, NamesRole, MatchingOpen, IsRoleArchetype;
    forall x, g | EndsInRole(Trim(s), x, g)
      ensures SplitRoleHint(s) == (Trim(x), Some(Lower(Trim(g))))
    {
      RoleIsSplit(s, x, g);
    }
    if SplitRoleHint(s).1.Some? { HintIsARole(s); }
  }

  lemma RoleIsSplit(s: string, x: string, g: string)
    requires EndsInRole(Trim(s), x, g)
    ensures SplitRoleHint(s) == (Trim(x), Some(Lower(Trim(g))))
  {
    hide Trim, Lower, NamesRole, MatchingOpen, IsRoleArchetype;
    RoleWordsExactly(g);
    ArchetypeWord(g);
    GroupSlices(x, g);
  }

  lemma HintIsARole(s: string)
    requires SplitRoleHint(s).1.Some?
    ensures exists x, g :: EndsInRole(Trim(s), x, g)
  {
    hide Trim, Lower, NamesRole, IsRoleArchetype;
    var text := Trim(s);
    var open := MatchingOpen(text).value;
    var g := text[open + 1..|text| - 1];
    RoleWordsExactly(Trim(g));
    NamesTrimmed(g);
    assert text == text[..open] + Group(g);
    assert EndsInRole(text, text[..open], g);
  }

  lemma NamesTrimmed(g: string)
    ensures NamesRole(Trim(g)) <==> NamesRole(g)
  {
    TrimIdempotent(g);
    hide Trim, Lower;
  }

  // ----- The trailing groups

  /** `groups` are the parenthesised groups that end `t[..end]`, from right to left, blanks between
      them, each balanced and none left over. */
  ghost predicate AreGroups(t: string, end: nat, groups: seq<(nat, nat)>)
    requires end <= |t|
    decreases |groups|
  {
    if groups == [] then forall open: nat :: !IsGroup(t, open, end)
    else
      && groups[0].1 == end && IsGroup(t, groups[0].0, end)
      && AreGroups(t, |TrimEnd(t[..groups[0].0])|, groups[1..])
  }

  /** The parenthesis at `open` balances the one that ends `t[..end]`. */
  ghost predicate IsGroup(t: string, open: nat, end: nat)
    requires end <= |t|
  {
    end > 0 && t[end - 1] == ')' && Balances(t[..end], open)
  }

  lemma GroupFound(t: string, end: nat, open: nat)
    requires end <= |t|
    ensures IsGroup(t, open, end) <==> end > 0 && t[end - 1] == ')' && MatchingOpen(t[..end]) == Some(open)
    ensures IsGroup(t, open, end) ==> open < end
  {
    hide MatchingOpen, Surplus;
    if end > 0 && t[end - 1] == ')' { MatchingOpenIsTheBalance(t[..end]); }
  }

  /** The groups collected are the trailing groups of the text. */
  lemma {:induction false} GroupsExactly(t: string, end: nat, groups: seq<(nat, nat)>)
    requires end <= |t|
    ensures GroupsAtEnd(t, end) == groups <==> AreGroups(t, end, groups)
    decreases |groups|
  {
    hide MatchingOpen, TrimEnd, IsGroup, GroupsAtEnd;
    GroupsUnfold(t, end);
    forall open: nat
      ensures IsGroup(t, open, end) <==> end > 0 && t[end - 1] == ')' && MatchingOpen(t[..end]) == Some(open)
    {
      GroupFound(t, end, open);
    }
    if groups != [] && groups[0].1 == end && IsGroup(t, groups[0].0, end) {
      GroupFound(t, end, groups[0].0);
      GroupsExactly(t, |TrimEnd(t[..groups[0].0])|, groups[1..]);
      assert groups == [groups[0]] + groups[1..];
    }
  }

  // ----- The directive

  /** The slots a directive may take: the only trailing group, or any but the right-most. */
  predicate IsSlot(groups: seq<(nat, nat)>, k: nat) { k < |groups| && (k > 0 || |groups| == 1) }

  /** The right-most slot that spells a reserved word. */
  ghost predicate DirectiveIn(t: string, groups: seq<(nat, nat)>, k: nat, v: Directive)
    requires forall g | g in groups :: g.0 < g.1 - 1 < |t|
  {
    && IsSlot(groups, k) && v != Auto && Spells(GroupText(t, groups[k]), v)
    && forall j: nat | j < k && IsSlot(groups, j) :: Spells(GroupText(t, groups[j]), Auto)
  }

  lemma {:induction false} FirstDirectiveAt(t: string, groups: seq<(nat, nat)>, k: nat)
    requires forall g | g in groups :: g.0 < g.1 - 1 < |t|
    requires k <= |groups| && forall j | 0 <= j < k :: ParseDirective(GroupText(t, groups[j])) == Auto
    ensures if k == |groups| then FirstDirective(t, groups) == (t, Auto)
            else var v := ParseDirective(GroupText(t, groups[k]));
                 v != Auto ==> FirstDirective(t, groups) == (Around(t, groups[k]), v)
    decreases k
  {
    hide ParseDirective, GroupText, Around;
    if k > 0 { FirstDirectiveAt(t, groups[1..], k - 1); }
  }

  /** Cutting a group out of a trimmed text leaves its two sides, one blank between them. */
  lemma AroundExactly(t: string, g: (nat, nat))
    requires g.0 < g.1 <= |t| && Trimmed(IsWhitespace, t)
    ensures Around(t, g) == Trim(TrimEnd(t[..g.0]) + [' '] + TrimStart(t[g.1..]))
  {
    var before, after := TrimEnd(t[..g.0]), TrimStart(t[g.1..]);
    var joined := before + [' '] + after;
    assert before != [] ==> before[0] == t[0];
    assert after != [] ==> after[|after| - 1] == t[|t| - 1];
    hide TrimStart, TrimEnd;
    if before == [] && after == [] {
      TrimWhileUnique(IsWhitespace, joined, [' '], [], []);
    } else if before == [] {
      AfterStarts(t[g.1..]);
      TrimWhileUnique(IsWhitespace, joined, [' '], after, []);
    } else if after == [] {
      BeforeEnds(t[..g.0]);
      TrimWhileUnique(IsWhitespace, joined, [], before, [' ']);
    } else {
      TrimWhileUnique(IsWhitespace, joined, [], joined, []);
    }
  }

  lemma AfterStarts(s: string)
    requires TrimStart(s) != []
    ensures !IsWhitespace(TrimStart(s)[0])
  {}

  lemma BeforeEnds(s: string)
    requires TrimEnd(s) != []
    ensures !IsWhitespace(TrimEnd(s)[|TrimEnd(s)| - 1])
  {}

  /** The directive is the right-most reserved word in a slot and is cut out of the text; without
      one the text stays as it is. */
  lemma DirectiveExactly(s: string)
    ensures var t := Trim(s);
            var groups := GroupsAtEnd(t, |t|);
            && (forall k: nat, v | DirectiveIn(t, groups, k, v) ::
                  SplitDirective(s) == (Trim(TrimEnd(t[..groups[k].0]) + [' '] + TrimStart(t[groups[k].1..])), v))
            && ((forall k: nat, v :: !DirectiveIn(t, groups, k, v)) ==> SplitDirective(s) == (t, Auto))
  {
    var t := Trim(s);
    var groups := GroupsAtEnd(t, |t|);
    assert Trimmed(IsWhitespace, t) by { var _, _ := TrimWhileParts(IsWhitespace, s); }
    hide Trim, TrimStart, TrimEnd, GroupsAtEnd, GroupText, Around, Spells, ParseDirective, FirstDirective;
    forall k: nat, v | DirectiveIn(t, groups, k, v)
      ensures SplitDirective(s) == (Trim(TrimEnd(t[..groups[k].0]) + [' '] + TrimStart(t[groups[k].1..])), v)
    {
      DirectiveFound(s, k, v);
      AroundExactly(t, groups[k]);
    }
    if forall k: nat, v :: !DirectiveIn(t, groups, k, v) { NothingSpelled(t, groups); }
  }

  lemma DirectiveFound(s: string, k: nat, v: Directive)
    requires var t := Trim(s); DirectiveIn(t, GroupsAtEnd(t, |t|), k, v)
    ensures var t := Trim(s); SplitDirective(s) == (Around(t, GroupsAtEnd(t, |t|)[k]), v)
  {
    hide Trim, GroupsAtEnd, Around, FirstDirective, DirectiveIn, Candidates;
    SlotFound(Trim(s), GroupsAtEnd(Trim(s), |Trim(s)|), k, v);
  }

  lemma SlotFound(t: string, groups: seq<(nat, nat)>, k: nat, v: Directive)
    requires forall g | g in groups :: g.0 < g.1 - 1 < |t|
    requires DirectiveIn(t, groups, k, v)
    ensures FirstDirective(t, Candidates(groups)) == (Around(t, groups[k]), v)
  {
    hide GroupText, Around, Spells, ParseDirective, FirstDirective;
    DirectiveWordsExactly(GroupText(t, groups[k]), v);
    if |groups| == 1 {
      FirstDirectiveAt(t, groups, 0);
    } else {
      var rest := groups[1..];
      forall j | 0 <= j < k - 1 ensures ParseDirective(GroupText(t, rest[j])) == Auto {
        assert IsSlot(groups, j + 1);
        DirectiveWordsExactly(GroupText(t, groups[j + 1]), Auto);
      }
      FirstDirectiveAt(t, rest, k - 1);
    }
  }

  lemma NothingSpelled(t: string, groups: seq<(nat, nat)>)
    requires forall g | g in groups :: g.0 < g.1 - 1 < |t|
    requires forall k: nat, v :: !DirectiveIn(t, groups, k, v)
    ensures FirstDirective(t, Candidates(groups)) == (t, Auto)
  {
    hide GroupText, Around, ParseDirective, FirstDirective, Spells;
    NoSlotSpells(t, groups, |groups|);
    var candidates := Candidates(groups);
    forall j | 0 <= j < |candidates| ensures ParseDirective(GroupText(t, candidates[j])) == Auto {
      var at: nat := if |groups| == 1 then j else j + 1;
      assert IsSlot(groups, at);
      DirectiveWordsExactly(GroupText(t, groups[at]), Auto);
    }
    FirstDirectiveAt(t, candidates, |candidates|);
  }

  lemma {:induction false} NoSlotSpells(t: string, groups: seq<(nat, nat)>, n: nat)
    requires forall g | g in groups :: g.0 < g.1 - 1 < |t|
    requires n <= |groups| && forall k: nat, v :: !DirectiveIn(t, groups, k, v)
    ensures forall j: nat | j < n && IsSlot(groups, j) :: Spells(GroupText(t, groups[j]), Auto)
  {
    hide GroupText, Spells, DirectiveIn;
    if n > 0 {
      NoSlotSpells(t, groups, n - 1);
      if IsSlot(groups, n - 1) {
        SpellsSomething(GroupText(t, groups[n - 1]));
        SlotIsSilent(t, groups, n - 1, Validate);
        SlotIsSilent(t, groups, n - 1, NoValidate);
      }
    }
  }

  lemma SpellsSomething(v: string)
    ensures Spells(v, Auto) || Spells(v, Validate) || Spells(v, NoValidate)
  {}

  lemma SlotIsSilent(t: string, groups: seq<(nat, nat)>, k: nat, v: Directive)
    requires forall g | g in groups :: g.0 < g.1 - 1 < |t|
    requires !DirectiveIn(t, groups, k, v) && IsSlot(groups, k) && v != Auto
    requires forall j: nat | j < k && IsSlot(groups, j) :: Spells(GroupText(t, groups[j]), Auto)
    ensures !Spells(GroupText(t, groups[k]), v)
  {}

  // ----- The forms of a description

  /** The prose ends in no group. */
  ghost predicate NoGroup(d: string) { GroupsAtEnd(Trim(d), |Trim(d)|) == [] }

  /** No group the prose ends in spells a reserved word. */
  ghost predicate NoWord(d: string) {
    var t := Trim(d);
    forall g | g in GroupsAtEnd(t, |t|) :: Spells(GroupText(t, g), Auto)
  }

  ghost predicate SplitsAs(description: string, body: string, hint: Option<string>, v: Directive) {
    SplitDirective(description).1 == v && SplitRoleHint(SplitDirective(description).0) == (body, hint)
  }

  lemma DirectiveThenRole(d: string, w1: string, v: string, w2: string, r: string, directive: Directive)
    requires All(IsWhitespace, w1) && All(IsWhitespace, w2) && directive != Auto
    requires Spells(v, directive) && NamesRole(r)
    ensures SplitsAs(d + w1 + Group(v) + w2 + Group(r), Trim(d), Some(Lower(Trim(r))), directive)
  {
    hide Trim, Lower, SplitDirective, SplitRoleHint, Spells, NamesRole, ParseDirective, IsRoleArchetype, Group;
    DirectiveWordsExactly(v, directive);
    RoleWordsExactly(r);
    DirectiveAndRoleRoundTrip(d, w1, v, w2, r);
  }

  lemma RoleOnly(d: string, w: string, r: string)
    requires All(IsWhitespace, w) && NamesRole(r) && NoWord(d)
    ensures SplitsAs(d + w + Group(r), Trim(d), Some(Lower(Trim(r))), Auto)
  {
    var t := Trim(d);
    hide Trim, Lower, SplitDirective, SplitRoleHint, NamesRole, ParseDirective, IsRoleArchetype, Group, GroupsAtEnd;
    hide GroupText, Spells;
    RoleWordsExactly(r);
    forall g | g in GroupsAtEnd(t, |t|) ensures ParseDirective(GroupText(t, g)) == Auto {
      DirectiveWordsExactly(GroupText(t, g), Auto);
    }
    RoleAloneIsAuto(d, w, r);
  }

  lemma NoGroupNoRole(d: string)
    requires NoGroup(d)
    ensures SplitRoleHint(d) == (Trim(d), None)
  {
    var t := Trim(d);
    hide Trim, Lower, IsRoleArchetype;
    assert t[..|t|] == t;
  }

  lemma ProseOnly(d: string)
    requires NoGroup(d)
    ensures SplitsAs(d, Trim(d), None, Auto)
  {
    var t := Trim(d);
    TrimIdempotent(d);
    NoGroupNoRole(d);
    SplitRoleHintOfTrimmed(d);
    hide Trim, SplitRoleHint, GroupsAtEnd;
    assert Candidates([]) == [];
    assert SplitDirective(d) == (t, Auto);
  }

  lemma DirectiveOnly(d: string, w: string, v: string, directive: Directive)
    requires All(IsWhitespace, w) && directive != Auto && Spells(v, directive) && NoGroup(d)
    ensures SplitsAs(d + w + Group(v), Trim(d), None, directive)
  {
    var t, x := Trim(d), TrimStart(d + w);
    var text := x + Group(v);
    hide Trim, TrimStart, TrimEnd, GroupsAtEnd, FirstDirective, GroupText, SplitRoleHint, ParseDirective, Spells;
    hide Around, Group;
    DirectiveWordsExactly(v, directive);
    DirectiveWord(v);
    RoleSlot(d, w, v);
    GroupsBeforeRole(x, t, v);
    var groups := GroupsAtEnd(text, |text|);
    OnlyGroup(x, v);
    assert |groups| == 1 && groups == [groups[0]];
    OneCandidate(text, groups[0]);
    CutLastGroup(x, v);
    NoGroupNoRole(d);
    SplitRoleHintOfTrimmed(d);
  }

  lemma OnlyGroup(x: string, v: string)
    requires NoParens(v)
    ensures var text := x + Group(v);
            var groups := GroupsAtEnd(text, |text|); groups != [] && groups[0] == (|x|, |text|)
  {
    hide MatchingOpen, TrimEnd, Group, NoParens, GroupsAtEnd;
    GroupsStep(x + Group(v), x, v);
  }

  lemma OneCandidate(text: string, g: (nat, nat))
    requires g.0 < g.1 - 1 < |text| && ParseDirective(GroupText(text, g)) != Auto
    ensures FirstDirective(text, Candidates([g])) == (Around(text, g), ParseDirective(GroupText(text, g)))
  {}

  lemma CutLastGroup(x: string, v: string)
    ensures var text := x + Group(v); Around(text, (|x|, |text|)) == TrimEnd(x)
  {
    var text := x + Group(v);
    assert text[..|x|] == x && text[|text|..] == [];
    hide TrimEnd;
  }

  /** In the reversed order neither is recognized: the right-most group is the role slot, and a
      reserved word is no role. */
  lemma RoleThenDirective(d: string, w1: string, r: string, w2: string, v: string, directive: Directive)
    requires All(IsWhitespace, w1) && All(IsWhitespace, w2) && directive != Auto
    requires Spells(v, directive) && NamesRole(r) && NoGroup(d)
    ensures var s := d + w1 + Group(r) + w2 + Group(v); SplitsAs(s, Trim(s), None, Auto)
  {
    var s := d + w1 + Group(r) + w2 + Group(v);
    hide Trim, TrimStart, TrimEnd, GroupsAtEnd, FirstDirective, GroupText, SplitRoleHint, ParseDirective, Spells;
    hide Around, Group, NamesRole, Lower;
    DirectiveWordsExactly(v, directive);
    DirectiveWord(v);
    RoleWordsExactly(r);
    ArchetypeWord(r);
    DirectiveText(d, w1, r, w2, v);
    TrimmedProse(d, w1);
    var x := TrimStart(d + w1);
    var text := x + Group(r) + w2 + Group(v);
    ReversedGroups(x, r, w2, v, Trim(d));
    var groups := GroupsAtEnd(text, |text|);
    OneSilentCandidate(text, groups);
    assert SplitDirective(s) == (text, Auto);
    TrimIdempotent(s);
    ReservedIsNoRole(x + Group(r) + w2, v, directive);
  }

  lemma OneSilentCandidate(text: string, groups: seq<(nat, nat)>)
    requires (forall g | g in groups :: g.0 < g.1 - 1 < |text|)
    requires |groups| == 2 && ParseDirective(GroupText(text, groups[1])) == Auto
    ensures FirstDirective(text, Candidates(groups)) == (text, Auto)
  {
    hide ParseDirective, GroupText, Around;
    assert Candidates(groups) == [groups[1]];
  }

  lemma ReversedGroups(x: string, r: string, w2: string, v: string, t: string)
    requires All(IsWhitespace, w2) && NoParens(r) && NoParens(v) && t == TrimEnd(x) && GroupsAtEnd(t, |t|) == []
    ensures var text := x + Group(r) + w2 + Group(v);
            var groups := GroupsAtEnd(text, |text|); |groups| == 2 && GroupText(text, groups[1]) == r
  {
    hide *;
    var xr := x + Group(r);
    var text := xr + w2 + Group(v);
    EndsInParen(x, r, w2);
    GroupsStep(text, xr + w2, v);
    assert x + Group(r) <= text;
    GroupsStep(text, x, r);
    PrefixOfText(x, t, text);
    GroupsOfPrefix(text, t, |t|);
  }

  lemma PrefixOfText(x: string, t: string, text: string)
    requires t == TrimEnd(x) && x <= text
    ensures t <= text
  {}

  lemma ReservedIsNoRole(x: string, v: string, directive: Directive)
    requires directive != Auto && Spells(v, directive)
    requires Trim(x + Group(v)) == x + Group(v)
    ensures SplitRoleHint(x + Group(v)) == (x + Group(v), None)
  {
    hide Trim, Lower, MatchingOpen, Group, NoParens;
    DirectiveWordsExactly(v, directive);
    DirectiveWord(v);
    GroupSlices(x, v);
    NamesTrimmed(v);
    RoleWordsExactly(Trim(v));
    SpelledIsNoRole(v, directive);
  }

  lemma SpelledIsNoRole(v: string, directive: Directive)
    requires directive != Auto && Spells(v, directive)
    ensures !NamesRole(v)
  {
    hide Lower, Trim;
    WordsDiffer();
    assert "validate"[7] == 'e' && "validator"[7] == 'o' && "no-validate"[0] == 'n';
  }
}
