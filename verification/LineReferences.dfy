/** Which lines refer to a task id: the id of a line, and the boundary-safe match
    (src/plan_parse.rs). */
module LineReferences {
  import opened Text
  import opened TaskId
  import opened TaskLines
  import opened IdSearch
  import opened BoundIds

  /** The leftmost token of the line is `line[i..j]`. */
  ghost predicate FirstToken(line: string, i: nat, j: nat) { i <= j <= |line| && IsFirstToken(line, i, j) }

  lemma TokenIsNormalized(token: string)
    requires IsTaskIdToken(token)
    ensures Normalize(token) == token
  {
    var last := token[|token| - 1];
    assert last == token[2..][|token| - 3];
    assert !IsWhitespace(token[0]) && !IsDecoration(token[0]) && IsTokenChar(last);
    assert !IsWhitespace(last) && !IsDecoration(last);
    TrimmedStays(token);
    TrimWhileUnique(IsDecoration, token, [], token, []);
  }

  /** A task line's id is its own, or else the first token anywhere on it; other lines have
      none. */
  lemma TaskIdOfLineExactly(line: string)
    ensures var task, id := ParseTaskLineAt(line, 0), TaskIdOfLine(line);
            && (task == None ==> id == None)
            && (task.Some? && task.value.taskId.Some? ==> id == Some(Lower(task.value.taskId.value)))
            && (task.Some? && task.value.taskId == None ==>
                  && (id == None <==> forall i: nat, j: nat :: !IsToken(line, i, j))
                  && (forall i: nat, j: nat | FirstToken(line, i, j) :: id == Some(Lower(line[i..j]))))
  {
    hide ParseTaskLineAt, FindTaskIdToken, IsToken, Lower, Normalize;
    FoundTokenIsFirst(line);
    forall i: nat, j: nat | FirstToken(line, i, j)
      ensures FindTaskIdToken(line) == Some(line[i..j]) && Normalize(line[i..j]) == line[i..j]
    {
      FirstTokenIsFound(line, i, j);
      TokenOfLine(line, i, j);
      TokenIsNormalized(line[i..j]);
    }
  }

  lemma TokenOfLine(line: string, i: nat, j: nat)
    requires i <= j <= |line| && IsToken(line, i, j)
    ensures IsTaskIdToken(line[i..j])
  {}

  /** `id` stands in the line with no letter, digit, dash or underscore on either side. */
  predicate StandsAlone(alphanumeric: char -> bool, line: string, id: string, i: nat) {
    && i + |id| <= |line| && line[i..i + |id|] == id
    && (i > 0 ==> !alphanumeric(line[i - 1]) && line[i - 1] != '-' && line[i - 1] != '_')
    && (i + |id| < |line| ==>
          !alphanumeric(line[i + |id|]) && line[i + |id|] != '-' && line[i + |id|] != '_')
  }

  lemma StandsAloneExactly(alphanumeric: char -> bool, s: string, w: string, i: nat)
    ensures ClearAt(alphanumeric, s, w, i) <==> StandsAlone(alphanumeric, s, w, i)
  {
    if OccursAt(s, w, i) { assert s[i..i + |w|] == w; }
    if StandsAlone(alphanumeric, s, w, i) {
      forall k | 0 <= k < |w| ensures s[i + k] == w[k] { assert s[i..i + |w|][k] == s[i + k]; }
    }
  }

  /** A line refers to an id of id characters through its own id alone, or, having none, through a
      word of the line, in any casing. */
  lemma RefersExactly(alphanumeric: char -> bool, line: string, taskId: string)
    requires All(IsIdChar, Key(taskId)) && forall c :: IsAsciiAlphanumeric(c) ==> alphanumeric(c)
    ensures LineMatches(alphanumeric, line, taskId) <==>
            && Key(taskId) != []
            && if TaskIdOfLine(line).Some? then TaskIdOfLine(line).value == Key(taskId)
               else exists i: nat :: StandsAlone(alphanumeric, Lower(line), Key(taskId), i)
  {
    hide TaskIdOfLine, Key, Lower, ClearAt, StandsAlone, FindAll;
    var s, w := Lower(line), Key(taskId);
    forall i: nat ensures ClearAt(alphanumeric, s, w, i) <==> StandsAlone(alphanumeric, s, w, i) {
      StandsAloneExactly(alphanumeric, s, w, i);
    }
    if w != [] { SkippingSearchIsComplete(alphanumeric, s, w); }
  }
}
