/** Exactly when newline normalization and check-off commute (src/plan_parse.rs). */
module NewlineCommutation {
  import opened Text
  import opened TaskId
  import opened TaskLines
  import opened Lines
  import opened PlanDocument
  import opened CheckOffTheorems
  import opened Newlines

  // ----- Where a call writes

  /** The span, in the document, of the checkbox a call ticks. */
  function TickSpan(content: string, taskId: string): Option<(nat, nat)> {
    match FirstFlip(LinesOf(content), taskId)
    case None => None
    case Some(k) =>
      var offset := |Unchunk(Chunks(content)[..k])|;
      match HeadBox(LinesOf(content)[k])
      case None => None
      case Some((b, e)) => Some((offset + b, offset + e))
  }

  /** An open checkbox: a bracket, blanks, the other bracket. */
  ghost predicate IsOpenBox(s: string, b: nat, e: nat) {
    && b + 2 <= e <= |s| && IsOpener(s[b]) && s[e - 1] == Closer(s[b]) && forall k | b < k < e - 1 :: IsBlank(s[k])
  }

  lemma UncheckedBoxIsOpen(line: string, b: nat, e: nat)
    requires HeadBox(line) == Some((b, e)) && BoxState(line[b + 1..e - 1]) == Unchecked
    ensures IsOpenBox(line, b, e)
  {
    assert BoxEnd(line, b) == Some(e);
    hide HeadBox, BoxStart;
    var i := SkipWhile(IsBlank, line, b + 1);
    if i < |line| && IsTick(line[i]) {
      TickedBoxIsChecked(line, b, i, e);
    }
  }

  lemma TickedBoxIsChecked(line: string, b: nat, i: nat, e: nat)
    requires b < i < e - 1 < |line| && IsTick(line[i])
    requires (forall k | b < k < i :: IsBlank(line[k])) && (forall k | i < k < e - 1 :: IsBlank(line[k]))
    ensures BoxState(line[b + 1..e - 1]) == Checked
  {
    var inner := line[b + 1..e - 1];
    var pre, post := line[b + 1..i], line[i + 1..e - 1];
    assert inner == pre + [line[i]] + post;
    TrimWhileUnique(IsWhitespace, inner, pre, [line[i]], post);
  }

  lemma ChunksAround(cs: seq<Chunk>, k: nat)
    requires k < |cs|
    ensures Unchunk(cs) == Unchunk(cs[..k]) + cs[k].body + (cs[k].eol + Unchunk(cs[k + 1..]))
  {
    hide Unchunk;
    UnchunkSnoc(cs, k);
    UnchunkAppend(cs[..k + 1], cs[k + 1..]);
    assert cs == cs[..k + 1] + cs[k + 1..];
    JoinedTwice(Unchunk(cs[..k]), cs[k].body, cs[k].eol, Unchunk(cs[k + 1..]));
  }

  lemma JoinedTwice(a: string, b: string, c: string, d: string)
    ensures a + (b + c) + d == a + b + (c + d)
  {}

  lemma SpliceInside(a: string, body: string, c: string, b: nat, e: nat, box: string)
    requires b <= e <= |body|
    ensures var s := a + body + c;
            a + (body[..b] + box + body[e..]) + c == s[..|a| + b] + box + s[|a| + e..]
  {
    var s := a + body + c;
    assert s[..|a| + b] == a + body[..b];
    assert s[|a| + e..] == body[e..] + c;
  }

  /** A call that flips writes the ticked box over an open one; any other call writes nothing. */
  lemma CheckOffSplices(content: string, taskId: string)
    ensures match TickSpan(content, taskId)
            case None => CheckOffContent(content, taskId) == (content, false)
            case Some((b, e)) =>
              IsOpenBox(content, b, e)
              && CheckOffContent(content, taskId) == (content[..b] + TickedBox(content[b]) + content[e..], true)
  {
    hide *;
    if FirstFlip(LinesOf(content), taskId).Some? {
      FlippedBox(content, taskId);
      ChunksRoundTrip(content);
      var k := FirstFlip(LinesOf(content), taskId).value;
      var (b, e) := HeadBox(LinesOf(content)[k]).value;
      TicksInPlace(content, Chunks(content), k, b, e);
    } else {
      NothingFlipped(content, taskId);
    }
  }

  lemma NothingFlipped(content: string, taskId: string)
    requires FirstFlip(LinesOf(content), taskId) == None
    ensures TickSpan(content, taskId) == None && CheckOffContent(content, taskId) == (content, false)
  {
    hide FirstFlip, LinesOf;
  }

  /** The line and the box a flipping call ticks. */
  lemma FlippedBox(content: string, taskId: string)
    requires FirstFlip(LinesOf(content), taskId).Some?
    ensures var k := FirstFlip(LinesOf(content), taskId).value;
            && k < |Chunks(content)| && LinesOf(content)[k] == Chunks(content)[k].body
            && var box, offset := HeadBox(LinesOf(content)[k]), |Unchunk(Chunks(content)[..k])|;
            && box.Some? && IsOpenBox(LinesOf(content)[k], box.value.0, box.value.1)
            && TickSpan(content, taskId) == Some((offset + box.value.0, offset + box.value.1))
            && CheckOffContent(content, taskId)
               == (Unchunk(WithBody(Chunks(content), k, Ticked(LinesOf(content)[k], box.value))), true)
  {
    hide CheckOffLine, HeadBox, IsOpenBox, Chunks, Unchunk, FirstFlip, Ticked, LinesOf, WithBody;
    FlippedLine(content, taskId);
    LinesAreBodies(content);
    WrittenChunks(content, taskId);
  }

  lemma LinesAreBodies(content: string)
    ensures |LinesOf(content)| == |Chunks(content)|
    ensures forall k | 0 <= k < |Chunks(content)| :: LinesOf(content)[k] == Chunks(content)[k].body
  {
    hide Chunks;
  }

  lemma WrittenChunks(content: string, taskId: string)
    requires FirstFlip(LinesOf(content), taskId).Some?
    ensures var k := FirstFlip(LinesOf(content), taskId).value;
            CheckOffLine(LinesOf(content)[k], taskId).Some? && k < |Chunks(content)|
            && CheckOffContent(content, taskId)
               == (Unchunk(WithBody(Chunks(content), k, CheckOffLine(LinesOf(content)[k], taskId).value)), true)
  {
    FirstFlipIsFirst(LinesOf(content), taskId);
    LinesAreBodies(content);
    hide CheckOffLine, Chunks, Unchunk, FirstFlip, LinesOf, Scannable;
  }

  lemma FlippedLine(content: string, taskId: string)
    requires FirstFlip(LinesOf(content), taskId).Some?
    ensures var line := LinesOf(content)[FirstFlip(LinesOf(content), taskId).value];
            var box := HeadBox(line);
            && box.Some? && IsOpenBox(line, box.value.0, box.value.1)
            && CheckOffLine(line, taskId) == Some(Ticked(line, box.value))
  {
    hide Flips, CheckOffLine, TaskAt, HeadBox, IsOpenBox, Key, LinesOf, FirstFlip, Ticked;
    var lines := LinesOf(content);
    var k := FirstFlip(lines, taskId).value;
    FirstFlipIsFirst(lines, taskId);
    FlipsIsPending(lines, k, taskId);
    PendingBox(lines, k);
  }

  lemma PendingBox(lines: seq<string>, k: nat)
    requires k < |lines| && TaskAt(lines, k).Some? && TaskAt(lines, k).value.checkbox == Unchecked
    ensures var span := TaskAt(lines, k).value.checkboxSpan;
            HeadBox(lines[k]) == Some(span) && IsOpenBox(lines[k], span.0, span.1)
  {
    hide Scannable, HeadBox, BoxState, ParseRest;
    var span := TaskAt(lines, k).value.checkboxSpan;
    UncheckedBoxIsOpen(lines[k], span.0, span.1);
  }

  lemma TicksInPlace(content: string, cs: seq<Chunk>, k: nat, b: nat, e: nat)
    requires k < |cs| && Unchunk(cs) == content && IsOpenBox(cs[k].body, b, e)
    ensures var o := |Unchunk(cs[..k])|;
            && IsOpenBox(content, o + b, o + e)
            && Unchunk(WithBody(cs, k, Ticked(cs[k].body, (b, e))))
               == content[..o + b] + TickedBox(content[o + b]) + content[o + e..]
  {
    hide Unchunk, Ticked, TickedBox;
    assert Ticked(cs[k].body, (b, e)) == cs[k].body[..b] + TickedBox(cs[k].body[b]) + cs[k].body[e..] by {
      TickedIs(cs[k].body, b, e);
    }
    var a, line, c := Unchunk(cs[..k]), cs[k].body, cs[k].eol + Unchunk(cs[k + 1..]);
    var cs' := WithBody(cs, k, Ticked(line, (b, e)));
    ChunksAround(cs, k);
    ChunksAround(cs', k);
    assert cs'[..k] == cs[..k] && cs'[k + 1..] == cs[k + 1..];
    assert content == a + line + c;
    assert forall q | |a| <= q < |a| + |line| :: content[q] == line[q - |a|];
    SpliceInside(a, line, c, b, e, TickedBox(line[b]));
  }

  lemma TickedIs(line: string, b: nat, e: nat)
    requires b < e <= |line|
    ensures Ticked(line, (b, e)) == line[..b] + TickedBox(line[b]) + line[e..]
  {}

  // ----- Normalizing around a box

  lemma {:induction false} NormalizedConcat(a: string, b: string)
    requires b == [] || b[0] != '\n'
    ensures Normalized(a + b) == Normalized(a) + Normalized(b)
    decreases |a|
  {
    hide Normalized;
    if a == [] {
      assert a + b == b;
      NormalizedEmpty();
    } else {
      var n := if a[0] == '\r' && |a| > 1 && a[1] == '\n' then 2 else 1;
      assert (a + b)[n..] == a[n..] + b && a[0..] == a && (a + b)[0..] == a + b;
      assert |a| == 1 && b != [] ==> (a + b)[1] == b[0];
      NormalizedStep(a, 0);
      NormalizedStep(a + b, 0);
      NormalizedConcat(a[n..], b);
    }
  }

  lemma NormalizedAroundBox(a: string, box: string, c: string)
    requires NoCarriageReturn(box) && box != [] && box[0] != '\n'
    ensures Normalized(a + box + c) == Normalized(a) + box + Normalized(c)
  {
    NormalizedConcat(a, box + c);
    NormalizedPrefix(box, c);
    assert a + box + c == a + (box + c);
    hide Normalized;
  }

  lemma PlacedBox(front: string, box: string, back: string)
    requires IsOpenBox(box, 0, |box|)
    ensures var n, m := front + box + back, |front|;
            && IsOpenBox(n, m, m + |box|) && n[m] == box[0] && n[..m] == front && n[m + |box|..] == back
  {
    var n := front + box + back;
    assert forall k | |front| <= k < |front| + |box| :: n[k] == box[k - |front|];
  }

  lemma CutBox(text: string, b: nat, e: nat)
    requires IsOpenBox(text, b, e)
    ensures var box := text[b..e];
            && IsOpenBox(box, 0, |box|) && NoCarriageReturn(box) && box[0] != '\n' && box[0] == text[b]
            && text == text[..b] + box + text[e..]
  {
    var box := text[b..e];
    assert forall k | 0 <= k < |box| :: box[k] == text[b + k];
    assert forall k | 0 < k < |box| - 1 :: IsBlank(box[k]);
  }

  /** An open box of the text is an open box of the normalized text, as many characters in as
      the text in front of it has after normalization. */
  lemma NormalizedBox(text: string, b: nat, e: nat)
    requires IsOpenBox(text, b, e)
    ensures var n, m := Normalized(text), |Normalized(text[..b])|;
            && IsOpenBox(n, m, m + (e - b)) && n[m] == text[b]
            && Normalized(text[..b] + TickedBox(text[b]) + text[e..])
               == n[..m] + TickedBox(n[m]) + n[m + (e - b)..]
  {
    var front, box, back := text[..b], text[b..e], text[e..];
    CutBox(text, b, e);
    assert NoCarriageReturn(TickedBox(text[b]));
    hide Normalized, IsOpenBox, NoCarriageReturn;
    NormalizedAroundBox(front, box, back);
    NormalizedAroundBox(front, TickedBox(text[b]), back);
    PlacedBox(Normalized(front), box, Normalized(back));
  }

  // ----- Two open boxes of one text

  lemma OneBoxPerPlace(n: string, b: nat, e: nat, f: nat)
    requires IsOpenBox(n, b, e) && IsOpenBox(n, b, f)
    ensures e == f
  {
    assert !IsBlank(n[e - 1]) && !IsBlank(n[f - 1]);
  }

  /** Ticking different boxes gives different texts. */
  lemma TicksDiffer(n: string, b: nat, e: nat, c: nat, f: nat)
    requires IsOpenBox(n, b, e) && IsOpenBox(n, c, f) && b < c
    ensures n[..b] + TickedBox(n[b]) + n[e..] != n[..c] + TickedBox(n[c]) + n[f..]
  {
    var x, y := n[..b] + TickedBox(n[b]) + n[e..], n[..c] + TickedBox(n[c]) + n[f..];
    assert n[b + 1] == Closer(n[b]) || IsBlank(n[b + 1]);
    assert b + 1 < c;
    assert x[b + 1] == 'x';
    assert y[b + 1] == n[b + 1];
  }

  /** The two calls write at the same place of the normalized text, or nowhere. */
  ghost predicate WriteAlike(text: string, taskId: string) {
    match (TickSpan(text, taskId), TickSpan(Normalized(text), taskId))
    case (None, None) => true
    case (Some((b, _)), Some((c, _))) => b <= |text| && c == |Normalized(text[..b])|
    case _ => false
  }

  /** Normalizing before a check-off or after it gives the same document and flag exactly when
      both calls find nothing to tick, or tick the same box. */
  lemma CommuteExactlyWhen(text: string, taskId: string)
    ensures var (text', flipped) := CheckOffContent(text, taskId);
            CheckOffContent(Normalized(text), taskId) == (Normalized(text'), flipped) <==> WriteAlike(text, taskId)
  {
    hide TickSpan, CheckOffContent, Normalized, IsOpenBox;
    CheckOffSplices(text, taskId);
    CheckOffSplices(Normalized(text), taskId);
    match (TickSpan(text, taskId), TickSpan(Normalized(text), taskId))
    case (Some((b, e)), Some((c, f))) =>
      NormalizedBox(text, b, e);
      OpenBoxFits(text, b, e);
      SameTicks(Normalized(text), |Normalized(text[..b])|, |Normalized(text[..b])| + (e - b), c, f);
    case _ =>
  }

  lemma OpenBoxFits(s: string, b: nat, e: nat)
    requires IsOpenBox(s, b, e)
    ensures b <= e <= |s|
  {}

  lemma SameTicks(n: string, b: nat, e: nat, c: nat, f: nat)
    requires IsOpenBox(n, b, e) && IsOpenBox(n, c, f)
    ensures n[..b] + TickedBox(n[b]) + n[e..] == n[..c] + TickedBox(n[c]) + n[f..] <==> b == c
  {
    if b < c {
      TicksDiffer(n, b, e, c, f);
    } else if c < b {
      TicksDiffer(n, c, f, b, e);
    } else {
      OneBoxPerPlace(n, b, e, f);
    }
  }
}
