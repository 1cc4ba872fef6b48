/** The parse of every task line that is written in one of the plan's forms: head, id, prose,
    directive and role (src/plan_parse.rs). */
module LineRoundTrips {
  import opened Text
  import opened TaskId
  import opened TrailingGroups
  import opened TaskLines
  import opened HeadGrammar
  import opened LineIds
  import opened LineForms

  /** A head with its box, and nothing behind the box. */
  ghost predicate IsTaskHead(head: string) {
    exists i: nat, j: nat, k: nat, b: nat :: IsHead(head, i, j, k, b, |head|)
  }

  /** `rest` carries the id, and `tail` is what follows its decoration. */
  predicate RestAt(rest: string, i: nat, j: nat, past: nat, id: string, tail: string) {
    CarriesIdAt(rest, i, j) && ClosesAt(rest, j, past, Openers(rest[..i])) && id == rest[i..j] && tail == rest[past..]
  }

  /** `rest` carries the id, `tail` being what follows its decoration, or it carries none. */
  ghost predicate IsRest(rest: string, id: Option<string>, tail: string) {
    match id
    case None => rest == tail && forall i: nat, j: nat :: !CarriesIdAt(rest, i, j)
    case Some(token) => exists i: nat, j: nat, past: nat :: RestAt(rest, i, j, past, token, tail)
  }

  /** An id between decoration, with no more closing brackets than opening ones. */
  predicate IsDecorated(pre: string, id: string, post: string, tail: string) {
    && (forall k | 0 <= k < |pre| :: pre[k] in BEFORE_ID) && IsPlainId(id)
    && (forall k | 0 <= k < |post| :: post[k] in BEHIND_ID || IsCloser(post[k])) && Closers(post) <= Openers(pre)
    && (post != [] ==> post[0] != '_')
    && (tail != [] ==> tail[0] !in BEHIND_ID && !IsCloser(tail[0]) && !IsIdChar(tail[0]))
  }

  lemma ClosingIsNoId(c: char)
    requires c in BEHIND_ID || IsCloser(c)
    ensures c == '_' || !IsIdChar(c)
  {
    ClosingExactly(c);
  }

  /** Such an id is read back whatever decorates it. */
  lemma DecoratedIsRest(pre: string, id: string, post: string, tail: string)
    requires IsDecorated(pre, id, post, tail)
    ensures IsRest(pre + id + post + tail, Some(id), tail)
  {
    var rest := pre + id + post + tail;
    var i, j, past := |pre|, |pre| + |id|, |pre| + |id| + |post|;
    assert rest[..i] == pre && rest[i..j] == id && rest[j..past] == post && rest[past..] == tail;
    assert post != [] ==> rest[j] == post[0];
    assert tail != [] ==> rest[past] == tail[0];
    if post != [] { ClosingIsNoId(post[0]); }
    hide BEFORE_ID, BEHIND_ID, IsPlainId, Closers, Openers;
    assert forall k | 0 <= k < i :: rest[k] == pre[k];
    assert CarriesIdAt(rest, i, j);
    assert forall k | j <= k < past :: rest[k] == post[k - j];
    assert ClosesAt(rest, j, past, Openers(rest[..i]));
    assert RestAt(rest, i, j, past, id, tail);
  }

  /** What the parser reports of a line. */
  ghost predicate ReadsAs(
      line: string, n: nat, id: Option<string>, tail: string, body: string, hint: Option<string>, v: Directive)
  {
    var t := ParseTaskLineAt(line, n);
    && t.Some? && t.value.taskId == id && t.value.description == Trim(tail)
    && t.value.descriptionBody == body && t.value.roleHint == hint && t.value.validationDirective == v
  }

  lemma RestReads(rest: string, id: Option<string>, tail: string)
    requires IsRest(rest, id, tail)
    ensures ParseRest(rest).taskId == id && ParseRest(rest).description == Trim(tail)
  {
    hide ParseRest, CarriesIdAt, RestAt, Trim;
    match id
    case None => NoIdExactly(rest);
    case Some(token) =>
      var i: nat, j: nat, past: nat :| RestAt(rest, i, j, past, token, tail);
      RestAtReads(rest, i, j, past, token, tail);
  }

  lemma RestAtReads(rest: string, i: nat, j: nat, past: nat, id: string, tail: string)
    requires RestAt(rest, i, j, past, id, tail)
    ensures ParseRest(rest).taskId == Some(id) && ParseRest(rest).description == Trim(tail)
  {
    hide ParseRest, Openers, Trim, IsPlainId, BEFORE_ID, BEHIND_ID, Closers;
    IdExactly(rest, i, j);
  }

  /** The other fields are the splits of the description. */
  lemma RestSplits(rest: string)
    ensures var r := ParseRest(rest); SplitsAs(r.description, r.body, r.roleHint, r.directive)
  {
    hide LeadingToken, SplitDirective, SplitRoleHint, Trim, Normalize, IsTaskIdToken;
  }

  lemma SplitOfTrimmed(s: string)
    ensures SplitDirective(Trim(s)) == SplitDirective(s)
  {
    TrimIdempotent(s);
    hide Trim, GroupsAtEnd, FirstDirective;
  }

  lemma LineIsHeadAndRest(head: string, rest: string, n: nat, b: nat)
    requires HeadBox(head + rest) == Some((b, |head|))
    ensures var t := ParseTaskLineAt(head + rest, n);
            var r := ParseRest(rest);
            && t.Some? && t.value.taskId == r.taskId && t.value.description == r.description
            && t.value.descriptionBody == r.body && t.value.roleHint == r.roleHint
            && t.value.validationDirective == r.directive
  {
    hide HeadBox, ParseRest, BoxState;
    assert (head + rest)[|head|..] == rest;
  }

  /** A head followed by such a rest parses to the id and to the splits of what follows it. */
  lemma LineParses(
      head: string, rest: string, n: nat, id: Option<string>, tail: string, body: string, hint: Option<string>,
      v: Directive)
    requires IsTaskHead(head) && IsRest(rest, id, tail) && SplitsAs(tail, body, hint, v)
    ensures ReadsAs(head + rest, n, id, tail, body, hint, v)
  {
    hide HeadBox, IsHead, ParseRest, IsRest, ParseTaskLineAt, SplitDirective, SplitRoleHint, Trim;
    var i: nat, j: nat, k: nat, b: nat :| IsHead(head, i, j, k, b, |head|);
    HeadBoxIsTheRegex(head, b, |head|);
    HeadStays(head, rest, b);
    LineIsHeadAndRest(head, rest, n, b);
    RestReads(rest, id, tail);
    RestSplits(rest);
    SplitOfTrimmed(tail);
  }

  // ----- The forms

  /** `d (v) (r)`: the directive and the role come back, and the prose without them. */
  lemma FullLine(
      head: string, rest: string, n: nat, id: Option<string>,
      d: string, w1: string, v: string, w2: string, r: string, directive: Directive)
    requires IsTaskHead(head) && IsRest(rest, id, d + w1 + Group(v) + w2 + Group(r))
    requires All(IsWhitespace, w1) && All(IsWhitespace, w2)
    requires directive != Auto && Spells(v, directive) && NamesRole(r)
    ensures ReadsAs(head + rest, n, id, d + w1 + Group(v) + w2 + Group(r), Trim(d), Some(Lower(Trim(r))), directive)
  {
    hide *;
    DirectiveThenRole(d, w1, v, w2, r, directive);
    LineParses(head, rest, n, id, d + w1 + Group(v) + w2 + Group(r), Trim(d), Some(Lower(Trim(r))), directive);
  }

  /** `d (r)`: the role comes back, and no directive unless the prose ends in a reserved word of
      its own. */
  lemma RoleLine(head: string, rest: string, n: nat, id: Option<string>, d: string, w: string, r: string)
    requires IsTaskHead(head) && IsRest(rest, id, d + w + Group(r))
    requires All(IsWhitespace, w) && NamesRole(r) && NoWord(d)
    ensures ReadsAs(head + rest, n, id, d + w + Group(r), Trim(d), Some(Lower(Trim(r))), Auto)
  {
    hide *;
    RoleOnly(d, w, r);
    LineParses(head, rest, n, id, d + w + Group(r), Trim(d), Some(Lower(Trim(r))), Auto);
  }

  /** `d (v)`: the directive comes back, and no role. */
  lemma DirectiveLine(
      head: string, rest: string, n: nat, id: Option<string>, d: string, w: string, v: string, directive: Directive)
    requires IsTaskHead(head) && IsRest(rest, id, d + w + Group(v))
    requires All(IsWhitespace, w) && directive != Auto && Spells(v, directive) && NoGroup(d)
    ensures ReadsAs(head + rest, n, id, d + w + Group(v), Trim(d), None, directive)
  {
    hide *;
    DirectiveOnly(d, w, v, directive);
    LineParses(head, rest, n, id, d + w + Group(v), Trim(d), None, directive);
  }

  /** `d` alone: prose and nothing else. */
  lemma ProseLine(head: string, rest: string, n: nat, id: Option<string>, d: string)
    requires IsTaskHead(head) && IsRest(rest, id, d) && NoGroup(d)
    ensures ReadsAs(head + rest, n, id, d, Trim(d), None, Auto)
  {
    hide *;
    ProseOnly(d);
    LineParses(head, rest, n, id, d, Trim(d), None, Auto);
  }

  /** `d (r) (v)`: in the reversed order both groups stay prose. */
  lemma ReversedLine(
      head: string, rest: string, n: nat, id: Option<string>,
      d: string, w1: string, r: string, w2: string, v: string, directive: Directive)
    requires IsTaskHead(head) && IsRest(rest, id, d + w1 + Group(r) + w2 + Group(v))
    requires All(IsWhitespace, w1) && All(IsWhitespace, w2)
    requires directive != Auto && Spells(v, directive) && NamesRole(r) && NoGroup(d)
    ensures var tail := d + w1 + Group(r) + w2 + Group(v); ReadsAs(head + rest, n, id, tail, Trim(tail), None, Auto)
  {
    hide *;
    var tail := d + w1 + Group(r) + w2 + Group(v);
    RoleThenDirective(d, w1, r, w2, v, directive);
    LineParses(head, rest, n, id, tail, Trim(tail), None, Auto);
  }

  /** Every task line is a head and a rest, and its parse is that of the rest. */
  lemma EveryLineSplits(line: string, n: nat)
    requires ParseTaskLineAt(line, n).Some?
    ensures var e := ParseTaskLineAt(line, n).value.checkboxSpan.1;
            && e <= |line| && IsTaskHead(line[..e])
            && exists id, tail :: IsRest(line[e..], id, tail) && ParseTaskLineAt(line, n).value.taskId == id
                                  && ParseTaskLineAt(line, n).value.description == Trim(tail)
  {
    hide HeadBox, ParseRest, IsRest, ParseTaskLineAt, Trim;
    var (b, e) := ParseTaskLineAt(line, n).value.checkboxSpan;
    LineHasItsBox(line, n);
    HeadBoxIsTheRegex(line, b, e);
    HeadOfLine(line, b, e);
    assert line[..e] + line[e..] == line;
    var id, tail := SomeRest(line[e..]);
    RestReads(line[e..], id, tail);
    LineIsHeadAndRest(line[..e], line[e..], n, b);
  }

  lemma LineHasItsBox(line: string, n: nat)
    requires ParseTaskLineAt(line, n).Some?
    ensures HeadBox(line) == Some(ParseTaskLineAt(line, n).value.checkboxSpan)
    ensures ParseTaskLineAt(line, n).value.checkboxSpan.1 <= |line|
  {}

  lemma HeadOfLine(line: string, b: nat, e: nat)
    requires e <= |line| && exists i: nat, j: nat, k: nat :: IsHead(line, i, j, k, b, e)
    ensures IsTaskHead(line[..e])
  {
    var i: nat, j: nat, k: nat :| IsHead(line, i, j, k, b, e);
    var m: nat, n: nat :| IsBoxWith(line, b, e, m, n);
    assert IsBoxWith(line[..e], b, e, m, n);
    assert IsHead(line[..e], i, j, k, b, e);
  }

  lemma SomeRest(rest: string) returns (id: Option<string>, tail: string)
    ensures IsRest(rest, id, tail)
  {
    hide CarriesIdAt, ClosesAt, Openers, SkipClosers;
    if i: nat, j: nat :| CarriesIdAt(rest, i, j) {
      CarriedFits(rest, i, j);
      var past := SkipClosers(rest, j, Openers(rest[..i]));
      ClosersExactly(rest, j, past, Openers(rest[..i]));
      id, tail := Some(rest[i..j]), rest[past..];
      assert RestAt(rest, i, j, past, rest[i..j], tail);
    } else {
      id, tail := None, rest;
    }
  }

  lemma CarriedFits(rest: string, i: nat, j: nat)
    requires CarriesIdAt(rest, i, j)
    ensures i <= j <= |rest|
  {}
}
