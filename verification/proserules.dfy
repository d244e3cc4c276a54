/**
 * The rules of commitlint.config.ts that read the body as prose:
 * body-prose (paragraphs start upper-case and end like a sentence),
 * proper-issue-refs (no `#123` references outside code blocks) and
 * too-many-spaces (no double space except after a full stop).
 */
module ProseRules {
  import opened JsString
  import opened Collaborators
  import opened Classifiers
  import opened Segmenter

  // ---------------------------------------------------------------- body-prose

  const BodyProseMessage := "Please begin a paragraph with uppercase letter and end it with a dot."

  predicate IsSentenceEnd(c: char) {
    c == '.' || c == ':' || c == '!' || c == '?'
  }

  /**
   * `paragraphHasValidEnding`: the last space-separated word is a URL, or
   * the last character ends a sentence, or it is `)` and the one character
   * before it, taken as a paragraph on its own, has a valid ending.
   */
  function ParagraphHasValidEnding(h: Helpers, paragraph: string): (r: bool)
    ensures r <==>
      h.isValidUrl(LastPiece(paragraph, " "))
      || (|paragraph| > 0 && IsSentenceEnd(paragraph[|paragraph| - 1]))
      || (|paragraph| > 1 && paragraph[|paragraph| - 1] == ')'
          && (IsSentenceEnd(paragraph[|paragraph| - 2]) || h.isValidUrl(LastPiece([paragraph[|paragraph| - 2]], " "))))
    decreases |paragraph|
  {
    var lastWordInParagraph := LastPiece(paragraph, " ");
    if h.isValidUrl(lastWordInParagraph) then
      true
    else if |paragraph| == 0 then
      false
    else
      var endingChar := paragraph[|paragraph| - 1];
      if IsSentenceEnd(endingChar) then
        true
      else
        endingChar == ')' && |paragraph| > 1 && ParagraphHasValidEnding(h, [paragraph[|paragraph| - 2]])
  }

  /** A paragraph closed by a sentence end and a parenthesis is well ended. */
  lemma ClosingParenAfterFullStop(h: Helpers, text: string)
    ensures ParagraphHasValidEnding(h, text + ".)")
  {
    var p := text + ".)";
    assert p[|p| - 2] == '.' && p[|p| - 1] == ')';
  }

  /**
   * Only one character before a closing parenthesis is looked at: a
   * paragraph ending in `word)` is not well ended unless the helper takes a
   * last word for a URL.
   */
  lemma ClosingParenAfterWord(h: Helpers, text: string, c: char)
    requires !IsSentenceEnd(c) && c != ' '
    requires !h.isValidUrl(LastPiece(text + [c, ')'], " ")) && !h.isValidUrl([c])
    ensures !ParagraphHasValidEnding(h, text + [c, ')'])
  {
    var p := text + [c, ')'];
    assert p[|p| - 2] == c && p[|p| - 1] == ')';
    SingleCharEnding(h, c);
  }

  /** One character that neither ends a sentence nor is a URL is not a valid ending. */
  lemma SingleCharEnding(h: Helpers, c: char)
    requires !IsSentenceEnd(c) && c != ' ' && !h.isValidUrl([c])
    ensures !ParagraphHasValidEnding(h, [c])
  {
    LastPieceOfChar([c], ' ');
  }

  /** What body-prose demands of one paragraph, once trimmed. */
  predicate ParagraphOk(h: Helpers, paragraph: string) {
    var p := Trim(paragraph);
    p == "" || WellFormed(h, p[0], ParagraphHasValidEnding(h, p), SplitLines(p))
  }

  /**
   * A paragraph with first character `first`, ending judged `validEnd` and
   * lines `lines` starts upper case (or is one URL line) and ends well (or
   * its last line is a URL or a footer note).
   */
  predicate WellFormed(h: Helpers, first: char, validEnd: bool, lines: seq<string>)
    requires |lines| > 0
  {
    (!h.isLowerCase([first]) || (|lines| == 1 && h.isValidUrl(lines[0])))
    && (validEnd || h.isValidUrl(lines[|lines| - 1]) || IsFooterNote(lines[|lines| - 1]))
  }

  /** The paragraphs body-prose reads: the prose cut at blank lines. */
  function ProseParagraphs(raw: string): seq<string> {
    match ProseOf(raw)
    case None => []
    case Some(bodyStr) => Split(bodyStr, "\n\n")
  }

  /** Some paragraph breaks the rule. */
  predicate SomeBadParagraph(h: Helpers, paragraphs: seq<string>) {
    exists i :: 0 <= i < |paragraphs| && !ParagraphOk(h, paragraphs[i])
  }

  /** body-prose: every paragraph of the prose is well begun and well ended. */
  method BodyProse(h: Helpers, raw: string) returns (v: Verdict)
    ensures v.passed <==> !SomeBadParagraph(h, ProseParagraphs(raw))
    ensures v.message == BodyProseMessage + h.errMessageSuffix
  {
    var offence := false;
    var prose := ProseOf(raw);
    if prose.Some? {
      var paragraphs := Split(prose.value, "\n\n");
      offence := CheckParagraphs(h, paragraphs);
    }
    v := Report(h, offence, BodyProseMessage);
  }

  /** The walk over every paragraph; it does not stop at the first offence. */
  method CheckParagraphs(h: Helpers, paragraphs: seq<string>) returns (offence: bool)
    ensures offence <==> SomeBadParagraph(h, paragraphs)
  {
    ghost var ok := (p: string) => ParagraphOk(h, p);
    offence := false;
    for i := 0 to |paragraphs|
      invariant offence == FailsBefore(ok, paragraphs, i)
    {
      var bad := ParagraphOffence(h, paragraphs[i]);
      if bad {
        offence := true;
      }
    }
    FailsBeforeAll(ok, paragraphs, |paragraphs|);
  }

  /** Some item before index `i` fails the test `ok`. */
  ghost predicate FailsBefore(ok: string -> bool, items: seq<string>, i: nat)
    requires i <= |items|
  {
    i > 0 && (FailsBefore(ok, items, i - 1) || !ok(items[i - 1]))
  }

  /** `FailsBefore` is the existential it spells out one item at a time. */
  lemma {:induction false} FailsBeforeAll(ok: string -> bool, items: seq<string>, i: nat)
    requires i <= |items|
    ensures FailsBefore(ok, items, i) <==> exists k :: 0 <= k < i && !ok(items[k])
  {
    if i > 0 {
      FailsBeforeAll(ok, items, i - 1);
      if exists k :: 0 <= k < i && !ok(items[k]) {
        var k :| 0 <= k < i && !ok(items[k]);
        if k < i - 1 {
          assert 0 <= k < i - 1 && !ok(items[k]);
        }
      }
      if FailsBefore(ok, items, i - 1) {
        var k :| 0 <= k < i - 1 && !ok(items[k]);
        assert 0 <= k < i && !ok(items[k]);
      }
    }
  }

  /** The checks made on one paragraph, once trimmed: its start, then its ending. */
  method ParagraphOffence(h: Helpers, rawParagraph: string) returns (offence: bool)
    ensures offence <==> !ParagraphOk(h, rawParagraph)
  {
    offence := false;
    var paragraph := Trim(rawParagraph);
    if paragraph == "" {
      return;
    }
    var validParagraphEnd := ParagraphHasValidEnding(h, paragraph);
    var lines := SplitLines(paragraph);
    offence := StartOrEndOffence(h, paragraph[0], validParagraphEnd, lines);
  }

  /**
   * The two checks on a non-empty trimmed paragraph with first character
   * `first`, ending judged `validParagraphEnd` and lines `lines`.
   */
  method StartOrEndOffence(h: Helpers, first: char, validParagraphEnd: bool, lines: seq<string>)
    returns (offence: bool)
    requires |lines| > 0
    ensures offence <==> !WellFormed(h, first, validParagraphEnd, lines)
  {
    offence := false;
    var startWithLowerCase := h.isLowerCase([first]);
    if startWithLowerCase {
      if !(|lines| == 1 && h.isValidUrl(lines[0])) {
        offence := true;
      }
    }
    if !validParagraphEnd && !h.isValidUrl(lines[|lines| - 1]) && !IsFooterNote(lines[|lines| - 1]) {
      offence := true;
    }
  }

  /** A one-line paragraph that starts lower-case and is not a URL breaks the rule. */
  lemma LowerCaseParagraphFails(h: Helpers, p: string)
    requires |p| > 0 && !IsWhitespace(p[0]) && !IsWhitespace(p[|p| - 1]) && '\n' !in p
    requires h.isLowerCase([p[0]]) && !h.isValidUrl(p)
    ensures !ParagraphOk(h, p)
  {
    TrimOfTrimmed(p);
  }

  /** A paragraph that does not start lower-case and ends with a full stop is fine. */
  lemma SentenceParagraphPasses(h: Helpers, p: string)
    requires |p| > 0 && !IsWhitespace(p[0]) && p[|p| - 1] == '.'
    requires !h.isLowerCase([p[0]])
    ensures ParagraphOk(h, p)
  {
    TrimOfTrimmed(p);
  }

  /** A message whose backtick-free body is one bad paragraph fails body-prose. */
  lemma BadBodyFails(h: Helpers, header: string, body: string)
    requires '\n' !in header && |header| > 0 && !IsWhitespace(header[0])
    requires |body| > 0 && !IsWhitespace(body[0]) && !IsWhitespace(body[|body| - 1])
    requires '`' !in body && !Contains(body, "\n\n")
    requires !ParagraphOk(h, body)
    ensures SomeBadParagraph(h, ProseParagraphs(header + "\n\n" + body))
  {
    ProseOfMessage(header, body);
    SplitWithoutSeparator(body, "\n\n");
    assert ProseParagraphs(header + "\n\n" + body)[0] == body;
  }

  /** Text without the separator splits into itself alone. */
  lemma SplitWithoutSeparator(s: string, sep: string)
    requires |sep| > 0 && !Contains(s, sep)
    ensures Split(s, sep) == [s]
  {
  }

  // ---------------------------------------------------------- proper-issue-refs

  const IssueRefsMessage := "Please use full URLs instead of #XYZ refs."

  /**
   * proper-issue-refs: outside code blocks, the body region holds no `#`
   * followed by a digit. The title is not looked at.
   */
  function ProperIssueRefs(h: Helpers, raw: string): (v: Verdict)
    ensures BodyOf(raw).None? ==> v.passed
    ensures v.message == IssueRefsMessage + h.errMessageSuffix
  {
    var offence :=
      match BodyOf(raw)
      case None => false
      case Some(bodyStr) => IncludesHashtagRef(RemoveAllCodeBlocks(bodyStr));
    Report(h, offence, IssueRefsMessage)
  }

  /** A `#123` inside a code block of the body is not an offence. */
  lemma HashtagInCodeBlockIgnored(h: Helpers, header: string, pre: string, code: string, post: string)
    requires '\n' !in header && |header| > 0 && !IsWhitespace(header[0])
    requires |pre| > 0 && !IsWhitespace(pre[0])
    requires |post| > 0 && !IsWhitespace(post[|post| - 1])
    requires '`' !in pre && '`' !in post && '#' !in pre && '#' !in post
    ensures ProperIssueRefs(h, header + "\n\n" + (pre + Fence + code + Fence + post)).passed
  {
    var body := pre + Fence + code + Fence + post;
    BlockBodyEnds(pre, code, post);
    BodyRoundTrip(header, body);
    CodeBlockRefIgnored(pre, code, post);
    IssueRefsOfRegion(h, header + "\n\n" + body, "\n\n" + body);
  }

  /** A body made of text, a code block and text starts and ends with that text. */
  lemma BlockBodyEnds(pre: string, code: string, post: string)
    requires |pre| > 0 && |post| > 0
    ensures var body := pre + Fence + code + Fence + post;
      |body| > 0 && body[0] == pre[0] && body[|body| - 1] == post[|post| - 1]
  {
  }

  /** The rule's verdict on a message is its verdict on the body region. */
  lemma IssueRefsOfRegion(h: Helpers, raw: string, region: string)
    requires BodyOf(raw) == Some(region)
    ensures ProperIssueRefs(h, raw).passed <==> !IncludesHashtagRef(RemoveAllCodeBlocks(region))
  {
  }

  /**
   * With backtick- and `#`-free text around it, a code block's references
   * vanish with it, also after the blank line that opens the body region.
   */
  lemma CodeBlockRefIgnored(pre: string, code: string, post: string)
    requires '`' !in pre && '`' !in post && '#' !in pre && '#' !in post
    ensures !IncludesHashtagRef(RemoveAllCodeBlocks("\n\n" + (pre + Fence + code + Fence + post)))
  {
    var blankPre := "\n\n" + pre;
    assert "\n\n" + (pre + Fence + code + Fence + post) == blankPre + Fence + code + Fence + post;
    assert '`' !in blankPre;
    RemovesCodeBlock(blankPre, code, post);
    assert '#' !in blankPre + post;
  }

  /** A `#` followed by a digit in a backtick-free body is an offence. */
  lemma HashtagInProseFails(h: Helpers, header: string, body: string, i: int)
    requires '\n' !in header && |header| > 0 && !IsWhitespace(header[0])
    requires |body| > 0 && !IsWhitespace(body[0]) && !IsWhitespace(body[|body| - 1]) && '`' !in body
    requires 0 <= i < |body| - 1 && body[i] == '#' && IsAsciiDigit(body[i + 1])
    ensures !ProperIssueRefs(h, header + "\n\n" + body).passed
  {
    BodyRoundTrip(header, body);
    HashtagSurvives(body, i);
    IssueRefsOfRegion(h, header + "\n\n" + body, "\n\n" + body);
  }

  /** In a backtick-free body a `#` and a digit stay after code-block removal. */
  lemma HashtagSurvives(body: string, i: int)
    requires '`' !in body && 0 <= i < |body| - 1 && body[i] == '#' && IsAsciiDigit(body[i + 1])
    ensures IncludesHashtagRef(RemoveAllCodeBlocks("\n\n" + body))
  {
    var b := "\n\n" + body;
    assert '`' !in b;
    NoBacktickNothingRemoved(b);
    assert b[i + 2] == '#' && IsAsciiDigit(b[i + 3]);
  }

  // ------------------------------------------------------------ too-many-spaces

  const TooManySpacesMessage := "Please watch out for too many whitespaces in the text."

  /** Some character other than `.` is followed by two spaces: the pattern `[^.]  ` matches. */
  function DoubleSpaceAfterNonDot(s: string): (r: bool)
    ensures r <==> exists i :: 0 <= i < |s| - 2 && s[i] != '.' && s[i + 1] == ' ' && s[i + 2] == ' '
    decreases |s|
  {
    if |s| < 3 then
      false
    else if s[0] != '.' && s[1] == ' ' && s[2] == ' ' then
      true
    else
      var rest := DoubleSpaceAfterNonDot(s[1..]);
      assert forall i :: 1 <= i < |s| ==> s[i] == s[1..][i - 1];
      rest
  }

  /**
   * too-many-spaces: outside code blocks, the whole message, title
   * included, has no double space except right after a full stop.
   */
  function TooManySpaces(h: Helpers, raw: string): (v: Verdict)
    ensures v.passed <==>
      forall i :: 0 <= i < |RemoveAllCodeBlocks(raw)| - 2 && RemoveAllCodeBlocks(raw)[i + 1] == ' ' && RemoveAllCodeBlocks(raw)[i + 2] == ' '
        ==> RemoveAllCodeBlocks(raw)[i] == '.'
    ensures v.message == TooManySpacesMessage + h.errMessageSuffix
  {
    var rawStr := RemoveAllCodeBlocks(raw);
    Report(h, DoubleSpaceAfterNonDot(rawStr), TooManySpacesMessage)
  }

  /** Two spaces after a full stop are allowed. */
  lemma TwoSpacesAfterFullStopPass(h: Helpers, sentence: string, next: string)
    requires ' ' !in sentence && ' ' !in next && '`' !in sentence && '`' !in next
    ensures TooManySpaces(h, sentence + ".  " + next).passed
  {
    var s := sentence + ".  " + next;
    assert '`' !in s;
    NoBacktickNothingRemoved(s);
    assert forall k :: 0 <= k < |sentence| ==> s[k] == sentence[k];
    assert forall k :: |sentence| + 3 <= k < |s| ==> s[k] == next[k - |sentence| - 3];
    assert s[|sentence|] == '.';
  }

  /** Two spaces after a word fail. */
  lemma TwoSpacesAfterWordFail(h: Helpers, word: string, next: string)
    requires |word| > 0 && word[|word| - 1] != '.' && '`' !in word && '`' !in next
    ensures !TooManySpaces(h, word + "  " + next).passed
  {
    var s := word + "  " + next;
    assert '`' !in s;
    NoBacktickNothingRemoved(s);
    var i := |word| - 1;
    assert s[i] == word[i] && s[i + 1] == ' ' && s[i + 2] == ' ';
  }
}
