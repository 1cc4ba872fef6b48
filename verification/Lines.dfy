/** Lines and their terminators: a text is a sequence of chunks, one per line, each
    holding the line's body and its own end-of-line. */
module Lines {
  import opened Text

  datatype Chunk = Chunk(body: string, eol: string)

  const LF: string := ['\n']
  const CRLF: string := ['\r', '\n']

  /** Length of the first newline-inclusive piece of a non-empty text. */
  function PieceEnd(text: string): (n: nat)
    requires text != []
    ensures 0 < n <= |text|
    ensures forall k | 0 <= k < n - 1 :: text[k] != '\n'
    ensures n < |text| ==> text[n - 1] == '\n'
  {
    match FindChar(text, '\n', 0)
    case None => |text|
    case Some(i) => i + 1
  }

  predicate EndsWith(s: string, c: char) { s != [] && s[|s| - 1] == c }

  /** Detach the terminator of one newline-inclusive piece. */
  function SplitEol(piece: string): Chunk {
    if EndsWith(piece, '\n') then
      var rest := piece[..|piece| - 1];
      if EndsWith(rest, '\r') then Chunk(rest[..|rest| - 1], CRLF) else Chunk(rest, LF)
    else Chunk(piece, [])
  }

  function Chunks(text: string): seq<Chunk>
    decreases |text|
  {
    if text == [] then []
    else var n := PieceEnd(text); [SplitEol(text[..n])] + Chunks(text[n..])
  }

  function Unchunk(cs: seq<Chunk>): string {
    if cs == [] then [] else cs[0].body + cs[0].eol + Unchunk(cs[1..])
  }

  function Bodies(cs: seq<Chunk>): (ls: seq<string>)
    ensures |ls| == |cs| && forall i | 0 <= i < |cs| :: ls[i] == cs[i].body
  {
    seq(|cs|, i requires 0 <= i < |cs| => cs[i].body)
  }

  /** The lines of a text, without terminators. */
  function LinesOf(text: string): seq<string> { Bodies(Chunks(text)) }

  predicate NoNewline(s: string) { forall k | 0 <= k < |s| :: s[k] != '\n' }

  /** A chunk that some text splits into; only the last one may lack a terminator. */
  ghost predicate IsChunk(c: Chunk, last: bool) {
    && NoNewline(c.body)
    && (c.eol == [] || c.eol == LF || c.eol == CRLF)
    && (c.eol == [] ==> last && c.body != [])
    && (c.eol == LF ==> !EndsWith(c.body, '\r'))
  }

  ghost predicate AreChunks(cs: seq<Chunk>) {
    forall i | 0 <= i < |cs| :: IsChunk(cs[i], i == |cs| - 1)
  }

  lemma PieceIsChunk(piece: string)
    requires piece != [] && forall k | 0 <= k < |piece| - 1 :: piece[k] != '\n'
    ensures var c := SplitEol(piece); piece == c.body + c.eol && IsChunk(c, !EndsWith(piece, '\n'))
    ensures SplitEol(piece).eol == [] <==> !EndsWith(piece, '\n')
  {}

  lemma ConsChunk(c: Chunk, tail: seq<Chunk>)
    requires AreChunks(tail) && IsChunk(c, tail == [])
    ensures AreChunks([c] + tail) && Unchunk([c] + tail) == c.body + c.eol + Unchunk(tail)
  {
    var cs := [c] + tail;
    assert cs[1..] == tail;
    assert forall i | 1 <= i < |cs| :: cs[i] == tail[i - 1];
  }

  lemma FirstChunk(text: string) returns (c: Chunk, rest: string)
    requires text != []
    ensures |rest| < |text| && text == c.body + c.eol + rest
    ensures IsChunk(c, rest == [])
    ensures Chunks(text) == [c] + Chunks(rest)
    ensures rest == [] <==> Chunks(rest) == []
  {
    var n := PieceEnd(text);
    c, rest := SplitEol(text[..n]), text[n..];
    PieceIsChunk(text[..n]);
  }

  lemma {:induction false} ChunksRoundTrip(text: string)
    ensures Unchunk(Chunks(text)) == text
    ensures AreChunks(Chunks(text))
    decreases |text|
  {
    if text != [] {
      var c, rest := FirstChunk(text);
      ChunksRoundTrip(rest);
      ConsChunk(c, Chunks(rest));
    }
  }

  lemma ConsPiece(c: Chunk, rest: string)
    requires IsChunk(c, rest == [])
    ensures Chunks(c.body + c.eol + rest) == [c] + Chunks(rest)
  {
    var piece := c.body + c.eol;
    var text := piece + rest;
    assert text == c.body + c.eol + rest;
    assert forall k | 0 <= k < |c.body| :: text[k] == c.body[k];
    assert forall k | |c.body| <= k < |piece| :: text[k] == c.eol[k - |c.body|];
    if c.eol == [] {
      assert text == piece == c.body;
    } else {
      assert text[|piece| - 1] == '\n';
    }
    assert PieceEnd(text) == |piece|;
    assert text[..|piece|] == piece && text[|piece|..] == rest;
    SplitEolInverse(c);
  }

  lemma {:induction false} UnchunkRoundTrip(cs: seq<Chunk>)
    requires AreChunks(cs)
    ensures Chunks(Unchunk(cs)) == cs
    decreases |cs|
  {
    if cs != [] {
      var c, tail := cs[0], cs[1..];
      assert AreChunks(tail) by {
        assert forall i | 0 <= i < |tail| :: tail[i] == cs[i + 1];
      }
      UnchunkRoundTrip(tail);
      assert tail != [] ==> IsChunk(tail[0], |tail| == 1);
      ConsPiece(c, Unchunk(tail));
    }
  }

  lemma SplitEolInverse(c: Chunk)
    requires exists last :: IsChunk(c, last)
    ensures SplitEol(c.body + c.eol) == c
  {
    var piece := c.body + c.eol;
    if c.eol == LF {
      assert piece[..|piece| - 1] == c.body;
    } else if c.eol == CRLF {
      assert piece[..|piece| - 1][..|piece| - 2] == c.body;
    } else {
      assert piece == c.body;
    }
  }

  /** Replacing the body of one line by another line leaves every other line alone. */
  lemma ReplaceBody(text: string, k: nat, body: string)
    requires k < |Chunks(text)|
    requires NoNewline(body) && body != [] && (EndsWith(body, '\r') ==> EndsWith(Chunks(text)[k].body, '\r'))
    ensures var cs := Chunks(text)[k := Chunks(text)[k].(body := body)];
            Chunks(Unchunk(cs)) == cs && LinesOf(Unchunk(cs)) == LinesOf(text)[k := body]
  {
    hide Chunks, Unchunk;
    ChunksRoundTrip(text);
    var cs := Chunks(text)[k := Chunks(text)[k].(body := body)];
    UnchunkRoundTrip(cs);
    assert Bodies(cs) == LinesOf(text)[k := body];
  }

  /** The lines of a text whose first line is given. */
  lemma FirstLine(line: string, rest: string)
    requires NoNewline(line) && !EndsWith(line, '\r')
    ensures LinesOf(line + LF + rest) == [line] + LinesOf(rest)
  {
    var c := Chunk(line, LF);
    assert IsChunk(c, rest == []);
    hide Chunks, IsChunk;
    ConsPiece(c, rest);
  }

  lemma OnlyLine(line: string)
    requires NoNewline(line) && line != []
    ensures LinesOf(line) == [line]
  {
    var c := Chunk(line, []);
    assert IsChunk(c, true);
    assert Chunks([]) == [];
    hide Chunks, IsChunk;
    ConsPiece(c, []);
    assert line + [] + [] == line;
  }
}
