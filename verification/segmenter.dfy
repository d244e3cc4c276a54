/**
 * How the body rules cut the commit message: trim the whole raw text and
 * keep everything from its first line break on, the break included.
 */
module Segmenter {
  import opened JsString
  import opened Classifiers

  datatype Option<T> = None | Some(value: T)

  /**
   * The body region: `raw.trim()` from its first `\n` on, or `None` when
   * the trimmed message is a single line.
   */
  function BodyOf(raw: string): (r: Option<string>)
    ensures r.None? <==> '\n' !in Trim(raw)
    ensures r.Some? ==>
      var t := Trim(raw);
      0 < |r.value| <= |t| && r.value[0] == '\n' && t == t[..|t| - |r.value|] + r.value
      && '\n' !in t[..|t| - |r.value|]
  {
    var rawStr := Trim(raw);
    var lineBreakIndex := IndexOf(rawStr, "\n");
    CutAtFirstBreak(rawStr);
    if lineBreakIndex >= 0 then Some(rawStr[lineBreakIndex..]) else None
  }

  lemma CutAtFirstBreak(t: string)
    ensures IndexOf(t, "\n") < 0 <==> '\n' !in t
    ensures IndexOf(t, "\n") >= 0 ==>
      var i := IndexOf(t, "\n");
      var b := t[i..];
      0 < |b| <= |t| && b[0] == '\n' && t == t[..|t| - |b|] + b && '\n' !in t[..|t| - |b|]
  {
    IndexOfChar(t, '\n');
    var i := IndexOf(t, "\n");
    if i >= 0 {
      assert |t| - |t[i..]| == i;
    }
  }

  /**
   * A message written as a header, a blank line and a body is cut back into
   * that body, preceded by the blank line; trimming it gives the body back.
   */
  lemma BodyRoundTrip(header: string, body: string)
    requires '\n' !in header
    requires |header| > 0 && !IsWhitespace(header[0])
    requires |body| > 0 && !IsWhitespace(body[0]) && !IsWhitespace(body[|body| - 1])
    ensures BodyOf(header + "\n\n" + body) == Some("\n\n" + body)
    ensures Trim("\n\n" + body) == body
  {
    var raw := header + "\n\n" + body;
    TrimEnds(raw, header[0], body[|body| - 1]);
    BreakAfterHeader(header, body);
    assert BodyOf(raw) == Some(raw[|header|..]);
    TrimBlankLine(body);
  }

  lemma TrimEnds(s: string, first: char, last: char)
    requires |s| > 0 && s[0] == first && s[|s| - 1] == last
    requires !IsWhitespace(first) && !IsWhitespace(last)
    ensures Trim(s) == s
  {
    TrimOfTrimmed(s);
  }

  lemma BreakAfterHeader(header: string, rest: string)
    requires '\n' !in header
    ensures IndexOf(header + "\n\n" + rest, "\n") == |header|
    ensures (header + "\n\n" + rest)[|header|..] == "\n\n" + rest
  {
    var s := header + ("\n\n" + rest);
    assert s == header + "\n\n" + rest;
    assert s[|header|] == '\n';
    assert s[..|header|] == header;
    assert s[|header|..] == "\n\n" + rest;
    IndexOfChar(s, '\n');
    assert IndexOf(s, ['\n']) == |header|;
  }

  lemma TrimBlankLine(body: string)
    requires |body| > 0 && !IsWhitespace(body[0]) && !IsWhitespace(body[|body| - 1])
    ensures Trim("\n\n" + body) == body
  {
    assert ("\n\n" + body)[1..] == "\n" + body;
    assert ("\n" + body)[1..] == body;
    assert TrimStart("\n\n" + body) == body;
    assert TrimEnd(body) == body;
  }

  /**
   * The lines the footer rules walk: the body region trimmed and split at
   * line breaks (a `\r` before a break is dropped); none without a body.
   */
  function BodyLines(raw: string): seq<string> {
    match BodyOf(raw)
    case None => []
    case Some(b) =>
      var bodyStr := Trim(b);
      if bodyStr == "" then [] else SplitLines(bodyStr)
  }

  /** The body lines of `header`, a blank line and `body` are the lines of `body`. */
  lemma BodyLinesOfMessage(header: string, body: string)
    requires '\n' !in header
    requires |header| > 0 && !IsWhitespace(header[0])
    requires |body| > 0 && !IsWhitespace(body[0]) && !IsWhitespace(body[|body| - 1])
    ensures BodyLines(header + "\n\n" + body) == SplitLines(body)
  {
    BodyRoundTrip(header, body);
  }

  /**
   * The text the prose rules read: the body region with its code blocks
   * removed, then trimmed; none when there is no body or nothing is left.
   */
  function ProseOf(raw: string): (r: Option<string>)
    ensures BodyOf(raw).None? ==> r.None?
    ensures BodyOf(raw).Some? ==>
      var text := RemoveAllCodeBlocks(BodyOf(raw).value);
      (r.None? <==> forall i :: 0 <= i < |text| ==> IsWhitespace(text[i]))
    ensures r.Some? ==> BodyOf(raw).Some? && IsProseOf(RemoveAllCodeBlocks(BodyOf(raw).value), r.value)
  {
    match BodyOf(raw)
    case None => None
    case Some(b) => TrimmedProse(RemoveAllCodeBlocks(b))
  }

  /**
   * `p` is the prose of `text`: `text` less the whitespace at both ends,
   * not empty, and without a fenced block.
   */
  ghost predicate IsProseOf(text: string, p: string) {
    0 < |p| && !IsWhitespace(p[0]) && !IsWhitespace(p[|p| - 1]) && !HasFencedBlock(p)
    && exists a :: TrimmedAt(text, p, a)
  }

  /** A text without code blocks, trimmed; none when only whitespace is left. */
  function TrimmedProse(text: string): (r: Option<string>)
    requires !HasFencedBlock(text)
    ensures r.None? <==> forall i :: 0 <= i < |text| ==> IsWhitespace(text[i])
    ensures r.Some? ==> IsProseOf(text, r.value)
  {
    var bodyStr := Trim(text);
    TrimmedIsProse(text);
    if bodyStr == "" then None else Some(bodyStr)
  }

  /** Trimming a text without a fenced block gives its prose, unless nothing is left. */
  lemma TrimmedIsProse(text: string)
    requires !HasFencedBlock(text)
    ensures Trim(text) != "" ==> IsProseOf(text, Trim(text))
  {
    FenceFreeInfix(text, Trim(text));
  }

  /** A piece of a text without a fenced block has none either. */
  lemma FenceFreeInfix(s: string, r: string)
    requires Contains(s, r) && !HasFencedBlock(s)
    ensures !HasFencedBlock(r)
  {
    var a :| 0 <= a <= |s| && OccursAt(s, r, a);
    if HasFencedBlock(r) {
      var i, j :| 0 <= i && i + 3 <= j <= |r| && OccursAt(r, Fence, i) && OccursAt(r, Fence, j);
      FenceInPiece(s, r, a, i);
      FenceInPiece(s, r, a, j);
      assert false;
    }
  }

  lemma FenceInPiece(s: string, r: string, a: int, i: int)
    requires OccursAt(s, r, a) && OccursAt(r, Fence, i)
    ensures OccursAt(s, Fence, a + i)
  {
    assert r == s[a..a + |r|];
    forall k | 0 <= k < 3
      ensures s[a + i..a + i + 3][k] == Fence[k]
    {
      assert r[i..i + 3][k] == r[i + k] == s[a..a + |r|][i + k];
    }
  }

  /** The prose of `header`, a blank line and a backtick-free `body` is `body`. */
  lemma ProseOfMessage(header: string, body: string)
    requires '\n' !in header
    requires |header| > 0 && !IsWhitespace(header[0])
    requires |body| > 0 && !IsWhitespace(body[0]) && !IsWhitespace(body[|body| - 1])
    requires '`' !in body
    ensures ProseOf(header + "\n\n" + body) == Some(body)
  {
    BodyRoundTrip(header, body);
    NoBacktickNothingRemoved("\n\n" + body);
  }
}
