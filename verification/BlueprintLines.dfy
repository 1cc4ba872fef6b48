/** What each line of a blueprint's frontmatter says, however it is written
    (src/agents/prompt_builder.rs). */
module BlueprintLines {
  import opened Text
  import opened Blueprint

  /** The front with one more item in the list it is in; an empty item is no item. */
  function WithItem(st: Front, item: string): Front {
    if item == [] || st.list == NoList then st
    else if st.list == Skills then st.(skills := st.skills + [item])
    else st.(tools := st.tools + [item])
  }

  /** The front after `key: value`. */
  function WithPair(st: Front, key: string, value: string): Front {
    if key == "role_name" then st.(roleName := value)
    else if key == "task_id" then (if value == [] then st else st.(taskId := Some(value)))
    else if key == "reasoning" then st.(reasoning := value)
    else if key == "selected_skills" then st.(list := Skills)
    else if key == "allowed_tools" then st.(list := Tools)
    else st
  }

  predicate QuotesOnly(s: string) { forall k | 0 <= k < |s| :: s[k] == '"' }

  /** What is left of a text without the quotes around it. */
  ghost predicate IsUnquoted(s: string, core: string) {
    && (core == [] || (core[0] != '"' && core[|core| - 1] != '"'))
    && exists a, b :: QuotesOnly(a) && QuotesOnly(b) && s == a + core + b
  }

  lemma UnquotedExactly(s: string, core: string)
    requires IsUnquoted(s, core)
    ensures Unquoted(s) == core
  {
    var a, b :| QuotesOnly(a) && QuotesOnly(b) && s == a + core + b;
    TrimWhileUnique(IsQuote, s, a, core, b);
  }

  predicate Bullets(s: string) { forall k | 0 <= k < |s| :: s[k] == '-' || s[k] == '*' || s[k] == ' ' }

  predicate NoColon(s: string) { forall k | 0 <= k < |s| :: s[k] != ':' }

  /** In a list, a line that starts with a dash or a star is an item: what follows any further dashes,
      stars and spaces, trimmed and without quotes. */
  lemma BulletLine(st: Front, pre: string, marks: string, rest: string, post: string, item: string)
    requires st.list != NoList && All(IsWhitespace, pre) && All(IsWhitespace, post)
    requires marks != [] && Bullets(marks) && marks[0] != ' '
    requires rest != [] && !Bullets(rest[..1]) && !IsWhitespace(rest[|rest| - 1])
    requires IsUnquoted(Trim(rest), item)
    ensures ReadLine(st, pre + marks + rest + post) == WithItem(st, item)
  {
    var l := marks + rest;
    assert pre + marks + rest + post == pre + l + post;
    assert l[|l| - 1] == rest[|rest| - 1];
    TrimWhileUnique(IsWhitespace, pre + l + post, pre, l, post);
    BulletsSkipped(marks, rest);
    UnquotedExactly(Trim(rest), item);
    hide Trim, TrimWhile, Unquoted, IsUnquoted, TrimStartWhile;
    assert Trim(pre + l + post) == l by { TrimIsTrimming(pre + l + post); }
  }

  lemma TrimIsTrimming(s: string)
    ensures Trim(s) == TrimWhile(IsWhitespace, s)
  {}

  lemma BulletsSkipped(marks: string, rest: string)
    requires Bullets(marks) && rest != [] && !Bullets(rest[..1])
    ensures TrimStartWhile(IsBulletOrBlank, marks + rest) == rest
  {
    var l := marks + rest;
    assert rest[..1][0] == rest[0] == l[|marks|];
    assert forall k | 0 <= k < |marks| :: l[k] == marks[k];
    assert SkipWhile(IsBulletOrBlank, l, 0) == |marks|;
  }

  /** In a list, a bullet alone is no item, and a line without a colon is one as it stands. */
  lemma BareLine(st: Front, line: string, item: string)
    requires st.list != NoList && !All(IsWhitespace, line) && IsUnquoted(Trim(line), item)
    requires NoColon(line)
    ensures Trim(line) != []
    ensures Trim(line)[0] != '-' && Trim(line)[0] != '*' ==> ReadLine(st, line) == WithItem(st, item)
    ensures Bullets(Trim(line)) && Trim(line)[0] != ' ' ==> ReadLine(st, line) == st
  {
    TrimEmptyIffBlank(line);
    TrimmedHasNoColon(line);
    UnquotedExactly(Trim(line), item);
    hide Trim, IsUnquoted, Unquoted, NoColon, FindChar, ReadPair, TrimStartWhile, Bullets;
    if Bullets(Trim(line)) && Trim(line)[0] != ' ' {
      OnlyBullets(Trim(line));
      StartsWithBullet(Trim(line));
    }
  }

  lemma StartsWithBullet(l: string)
    requires Bullets(l) && l != [] && l[0] != ' '
    ensures l[0] == '-' || l[0] == '*'
  {}

  lemma TrimmedHasNoColon(line: string)
    requires NoColon(line)
    ensures NoColon(Trim(line)) && FindChar(Trim(line), ':', 0) == None
  {
    var l := Trim(line);
    var pre, post := TrimWhileParts(IsWhitespace, line);
    assert forall k | 0 <= k < |l| :: l[k] == line[|pre| + k];
  }

  lemma OnlyBullets(l: string)
    requires Bullets(l)
    ensures Unquoted(Trim(TrimStartWhile(IsBulletOrBlank, l))) == []
  {
    assert SkipWhile(IsBulletOrBlank, l, 0) == |l|;
    assert TrimStartWhile(IsBulletOrBlank, l) == [];
    TrimmedStays([]);
    TrimWhileUnique(IsQuote, [], [], [], []);
  }

  /** A line with a colon, outside a list or not a bullet, sets the field its key names, in any
      casing, and ends the list. */
  lemma PairLine(st: Front, line: string, key: string, rest: string, value: string)
    requires !All(IsWhitespace, line) && Trim(line) == key + [':'] + rest && NoColon(key)
    requires st.list == NoList || key == [] || (key[0] != '-' && key[0] != '*')
    requires IsUnquoted(Trim(rest), value)
    ensures ReadLine(st, line) == WithPair(st.(list := NoList), Lower(Trim(key)), value)
  {
    hide ReadPair, IsUnquoted, Lower, WithPair, TrimStartWhile, NoColon, Trim, Unquoted, FindChar, ReadLine;
    TrimEmptyIffBlank(line);
    UnquotedExactly(Trim(rest), value);
    ColonAt(Trim(line), key, rest);
    PairText(st.(list := NoList), Trim(line), key, rest, value);
    assert Trim(line)[0] == if key == [] then ':' else key[0];
    ClosesList(st, line);
  }

  lemma ClosesList(st: Front, line: string)
    requires Trim(line) != [] && FindChar(Trim(line), ':', 0).Some?
    requires st.list == NoList || (Trim(line)[0] != '-' && Trim(line)[0] != '*')
    ensures ReadLine(st, line) == ReadPair(st.(list := NoList), Trim(line))
  {
    hide Trim, FindChar, ReadPair, Unquoted, TrimStartWhile;
    assert st.list == NoList ==> st.(list := NoList) == st;
  }

  lemma ColonAt(l: string, key: string, rest: string)
    requires l == key + [':'] + rest && NoColon(key)
    ensures FindChar(l, ':', 0) == Some(|key|) && l[..|key|] == key && l[|key| + 1..] == rest
  {
    assert l[|key|] == ':';
    assert forall k | 0 <= k < |key| :: l[k] == key[k];
  }

  lemma PairText(st: Front, l: string, key: string, rest: string, value: string)
    requires FindChar(l, ':', 0) == Some(|key|) && |key| < |l| && l[..|key|] == key && l[|key| + 1..] == rest
    requires Unquoted(Trim(rest)) == value
    ensures ReadPair(st, l) == WithPair(st, Lower(Trim(key)), value)
  {
    hide Trim, Unquoted, Lower, FindChar, SetField, FieldOf, WithPair;
    FieldsSpelled(Lower(Trim(key)), st, value);
  }

  lemma FieldsSpelled(key: string, st: Front, value: string)
    ensures SetField(st, FieldOf(key), value) == WithPair(st, key, value)
  {}

  /** A blank line says nothing, nor does a line without a colon outside a list. */
  lemma SilentLine(st: Front, line: string)
    requires All(IsWhitespace, line) || (st.list == NoList && NoColon(line))
    ensures ReadLine(st, line) == st
  {
    TrimEmptyIffBlank(line);
    if NoColon(line) { TrimmedHasNoColon(line); }
    hide Trim, NoColon, FindChar, Unquoted, TrimStartWhile;
  }
}
