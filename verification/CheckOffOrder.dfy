/** The order of check-offs does not matter. */
module CheckOffOrder {
  import opened TaskId
  import opened TaskLines
  import opened Lines
  import opened PlanDocument
  import opened CheckOffTheorems

  lemma OutcomeUnique(content: string, key: string, c1: string, f1: bool, c2: string, f2: bool)
    requires Outcome(content, key, c1, f1) && Outcome(content, key, c2, f2)
    ensures c1 == c2 && f1 == f2
  {
    hide TaskAt, IsPending, SameButTicked, LinesOf, Ticked;
  }

  /** Only the key of an id matters: decoration and case do not. */
  lemma CheckOffByKey(content: string, a: string, b: string)
    requires Key(a) == Key(b)
    ensures CheckOffContent(content, a) == CheckOffContent(content, b)
  {
    hide *;
    CheckOffPreservesParse(content, a);
    CheckOffPreservesParse(content, b);
    var (ca, fa) := CheckOffContent(content, a);
    var (cb, fb) := CheckOffContent(content, b);
    OutcomeUnique(content, Key(a), ca, fa, cb, fb);
  }

  /** Ticking the line of one id does not change which lines are pending for another. */
  lemma OtherKeyUnaffected(lines: seq<string>, k: nat, lines': seq<string>, key: string, other: string)
    requires SameButTicked(lines, k, lines') && IsPending(TaskAt(lines, k), key) && other != key
    ensures forall j | 0 <= j < |lines| :: IsPending(TaskAt(lines', j), other) <==> IsPending(TaskAt(lines, j), other)
  {
    TickedTaskIsChecked(TaskAt(lines, k).value);
    hide TaskAt, TickedTask, StateAt, Ticked, Key, TasksUpTo;
  }

  /** Ticking two different lines gives one document, whichever is ticked first. */
  lemma TicksCommute(c: string, ka: nat, ca: string, kb: nat, cb: string, cab: string, cba: string)
    requires ka != kb && TicksLine(c, ka, ca) && TicksLine(c, kb, cb)
    requires SameButTicked(LinesOf(c), ka, LinesOf(ca)) && SameButTicked(LinesOf(c), kb, LinesOf(cb))
    requires TicksLine(ca, kb, cab) && TicksLine(cb, ka, cba)
    ensures cab == cba
  {
    hide TaskAt, Ticked, TickedTask, StateAt, TasksUpTo, Chunks, Unchunk;
    var cs := Chunks(c);
    assert Chunks(ca)[kb] == cs[kb] && Chunks(cb)[ka] == cs[ka];
    assert TaskAt(LinesOf(ca), kb) == TaskAt(LinesOf(c), kb);
    assert TaskAt(LinesOf(cb), ka) == TaskAt(LinesOf(c), ka);
    assert Chunks(cab) == Chunks(cba);
  }

  /** For ids with different keys, neither call sees the other: same document and same
      flags in either order. */
  lemma OutcomesCommute(
      c: string, a: string, b: string, ca: string, fa: bool, cb: string, fb: bool,
      cab: string, fab: bool, cba: string, fba: bool)
    requires a != b
    requires Outcome(c, a, ca, fa) && Outcome(c, b, cb, fb) && Outcome(ca, b, cab, fab) && Outcome(cb, a, cba, fba)
    ensures cab == cba && fab == fb && fba == fa
  {
    hide TaskAt, IsPending, SameButTicked, LinesOf, TicksLine;
    var lines := LinesOf(c);
    if fa {
      var ka: nat :| IsFirstPending(lines, ka, a) && TicksLine(c, ka, ca) && SameButTicked(lines, ka, LinesOf(ca));
      OtherKeyUnaffected(lines, ka, LinesOf(ca), a, b);
      SameLength(lines, ka, LinesOf(ca));
    }
    if fb {
      var kb: nat :| IsFirstPending(lines, kb, b) && TicksLine(c, kb, cb) && SameButTicked(lines, kb, LinesOf(cb));
      OtherKeyUnaffected(lines, kb, LinesOf(cb), b, a);
      SameLength(lines, kb, LinesOf(cb));
    }
    if fa && fb {
      var ka: nat :| IsFirstPending(lines, ka, a) && TicksLine(c, ka, ca) && SameButTicked(lines, ka, LinesOf(ca));
      var kb: nat :| IsFirstPending(lines, kb, b) && TicksLine(c, kb, cb) && SameButTicked(lines, kb, LinesOf(cb));
      OneKeyPerLine(lines, ka, a, b);
      TicksCommute(c, ka, ca, kb, cb, cab, cba);
    } else if fa {
      OutcomeUnique(cb, a, ca, fa, cba, fba);
    } else if fb {
      OutcomeUnique(ca, b, cb, fb, cab, fab);
    }
  }

  lemma SameLength(lines: seq<string>, k: nat, lines': seq<string>)
    requires SameButTicked(lines, k, lines')
    ensures |lines'| == |lines|
  {
    hide TaskAt, Ticked, TickedTask, StateAt, TasksUpTo;
  }

  lemma OneKeyPerLine(lines: seq<string>, k: nat, a: string, b: string)
    requires k < |lines| && IsPending(TaskAt(lines, k), a) && a != b
    ensures !IsPending(TaskAt(lines, k), b)
  {
    hide TaskAt;
  }

  /** Check-offs commute. */
  lemma CheckOffsCommute(content: string, a: string, b: string)
    ensures Run(content, [a, b]) == Run(content, [b, a])
    ensures Key(a) != Key(b) ==>
              && CheckOffContent(CheckOffContent(content, a).0, b).1 == CheckOffContent(content, b).1
              && CheckOffContent(CheckOffContent(content, b).0, a).1 == CheckOffContent(content, a).1
  {
    TwoCalls(content, a, b);
    TwoCalls(content, b, a);
    hide *;
    var (ca, fa) := CheckOffContent(content, a);
    var (cb, fb) := CheckOffContent(content, b);
    var (cab, fab) := CheckOffContent(ca, b);
    var (cba, fba) := CheckOffContent(cb, a);
    if Key(a) == Key(b) {
      CheckOffByKey(content, a, b);
      CheckOffByKey(ca, a, b);
    } else {
      CheckOffPreservesParse(content, a);
      CheckOffPreservesParse(content, b);
      CheckOffPreservesParse(ca, b);
      CheckOffPreservesParse(cb, a);
      OutcomesCommute(content, Key(a), Key(b), ca, fa, cb, fb, cab, fab, cba, fba);
    }
  }

  lemma TwoCalls(content: string, a: string, b: string)
    ensures Run(content, [a, b]) == CheckOffContent(CheckOffContent(content, a).0, b).0
  {
    hide CheckOffContent;
    assert [a, b][1..] == [b];
    assert [b][1..] == [];
    assert Run(CheckOffContent(content, a).0, [b]) == CheckOffContent(CheckOffContent(content, a).0, b).0;
  }

  // ----- Whole runs

  lemma RunStep(content: string, id: string, ids: seq<string>)
    ensures Run(content, [id] + ids) == Run(CheckOffContent(content, id).0, ids)
  {
    hide CheckOffContent;
    assert ([id] + ids)[1..] == ids;
  }

  lemma {:induction false} MoveToFront(content: string, ids: seq<string>, j: nat)
    requires j < |ids|
    ensures Run(content, ids) == Run(content, [ids[j]] + ids[..j] + ids[j + 1..])
    decreases j
  {
    hide *;
    var y, x, t := ids[0], ids[j], ids[1..];
    assert ids == [y] + t;
    if j == 0 {
      assert [ids[0]] + ids[..0] + ids[1..] == ids;
    } else {
      var rest := t[..j - 1] + t[j..];
      MoveToFront(CheckOffContent(content, y).0, t, j - 1);
      assert [t[j - 1]] + t[..j - 1] + t[j..] == [x] + rest;
      RunStep(content, y, t);
      RunStep(CheckOffContent(content, y).0, x, rest);
      CheckOffsCommute(content, y, x);
      TwoCalls(content, x, y);
      TwoCalls(content, y, x);
      RunStep(CheckOffContent(content, x).0, y, rest);
      RunStep(content, x, [y] + rest);
      assert [x] + ids[..j] + ids[j + 1..] == [x] + ([y] + rest);
    }
  }

  lemma {:induction false} KeyHasIndex(ids: seq<string>, key: string) returns (j: nat)
    requires key in Keys(ids)
    ensures j < |ids| && Key(ids[j]) == key
  {
    hide Key;
    var n := |ids| - 1;
    if Key(ids[n]) == key {
      j := n;
    } else {
      j := KeyHasIndex(ids[..n], key);
    }
  }

  lemma {:induction false} KeysMove(ids: seq<string>, j: nat)
    requires j < |ids|
    ensures Keys(ids) == multiset{Key(ids[j])} + Keys(ids[..j] + ids[j + 1..])
    decreases j
  {
    hide Key, Keys;
    KeysCons(ids);
    var t := ids[1..];
    if j == 0 {
      assert ids[..0] + ids[1..] == t;
    } else {
      KeysMove(t, j - 1);
      var rest := ids[..j] + ids[j + 1..];
      KeysCons(rest);
      assert rest[1..] == t[..j - 1] + t[j..];
    }
  }

  lemma NoKeysNoIds(ids: seq<string>)
    ensures Keys(ids) == Keys([]) <==> ids == []
  {
    if ids != [] { KeysCons(ids); }
  }

  lemma CancelOne(key: string, a: multiset<string>, b: multiset<string>)
    requires multiset{key} + a == multiset{key} + b
    ensures a == b
  {
    assert a == (multiset{key} + a) - multiset{key};
    assert b == (multiset{key} + b) - multiset{key};
  }

  /** Runs that ask for the same ids, in whatever order and spelling, end in the same
      document. */
  lemma {:induction false} OrderIsIrrelevant(content: string, ids1: seq<string>, ids2: seq<string>)
    requires Keys(ids1) == Keys(ids2)
    ensures Run(content, ids1) == Run(content, ids2)
    decreases |ids1|
  {
    hide *;
    if ids1 == [] {
      NoKeysNoIds(ids2);
    } else {
      var x, t := ids1[0], ids1[1..];
      KeysCons(ids1);
      var j := KeyHasIndex(ids2, Key(x));
      var rest := ids2[..j] + ids2[j + 1..];
      KeysMove(ids2, j);
      CancelOne(Key(x), Keys(t), Keys(rest));
      MoveToFront(content, ids2, j);
      assert [ids2[j]] + ids2[..j] + ids2[j + 1..] == [ids2[j]] + rest;
      assert ids1 == [x] + t;
      RunStep(content, x, t);
      RunStep(content, ids2[j], rest);
      CheckOffByKey(content, x, ids2[j]);
      OrderIsIrrelevant(CheckOffContent(content, x).0, t, rest);
    }
  }
}
