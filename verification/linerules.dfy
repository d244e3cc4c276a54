/**
 * The two rules of commitlint.config.ts that walk the message line by
 * line and skip big blocks: body-soft-max-line-length and
 * trailing-whitespace. A line the helper module calls a big-block
 * delimiter toggles whether the walk is inside a big block; delimiter
 * lines and the lines inside a block are not inspected.
 */
module LineRules {
  import opened JsString
  import opened Collaborators
  import opened Classifiers
  import opened Segmenter

  // ------------------------------------------------------------- big blocks

  /** Whether the walk is inside a big block when it reaches line `i`. */
  function InBigBlockAt(h: Helpers, lines: seq<string>, i: nat): bool
    requires i <= |lines|
  {
    if i == 0 then false
    else InBigBlockAt(h, lines, i - 1) != h.isBigBlock(lines[i - 1])
  }

  /** Line `i` is looked at: it is no delimiter and lies outside every big block. */
  predicate Inspected(h: Helpers, lines: seq<string>, i: nat)
    requires i < |lines|
  {
    !h.isBigBlock(lines[i]) && !InBigBlockAt(h, lines, i)
  }

  /** The number of delimiter lines among `lines`. */
  function DelimiterCount(h: Helpers, lines: seq<string>): nat {
    if lines == [] then 0
    else DelimiterCount(h, lines[..|lines| - 1]) + (if h.isBigBlock(lines[|lines| - 1]) then 1 else 0)
  }

  /** The walk is inside a big block exactly after an odd number of delimiters. */
  lemma {:induction false} InBigBlockIffOddDelimiters(h: Helpers, lines: seq<string>, i: nat)
    requires i <= |lines|
    ensures InBigBlockAt(h, lines, i) <==> DelimiterCount(h, lines[..i]) % 2 == 1
  {
    if i > 0 {
      InBigBlockIffOddDelimiters(h, lines, i - 1);
      assert lines[..i][..i - 1] == lines[..i - 1];
    }
  }

  /**
   * Opened outside a block, a delimiter hides every line up to the next
   * delimiter: none of them is inspected.
   */
  lemma {:induction false} BigBlockContentsSkipped(h: Helpers, lines: seq<string>, a: nat, b: nat)
    requires a < b <= |lines|
    requires h.isBigBlock(lines[a]) && !InBigBlockAt(h, lines, a)
    requires forall k :: a < k < b ==> !h.isBigBlock(lines[k])
    ensures InBigBlockAt(h, lines, b)
    ensures forall k :: a <= k < b ==> !Inspected(h, lines, k)
  {
    if b > a + 1 {
      BigBlockContentsSkipped(h, lines, a, b - 1);
    }
  }

  /** The delimiter that closes a block ends it: the walk is outside after it. */
  lemma BigBlockClosed(h: Helpers, lines: seq<string>, a: nat, b: nat)
    requires a < b < |lines|
    requires h.isBigBlock(lines[a]) && !InBigBlockAt(h, lines, a)
    requires forall k :: a < k < b ==> !h.isBigBlock(lines[k])
    requires h.isBigBlock(lines[b])
    ensures !InBigBlockAt(h, lines, b + 1)
  {
    BigBlockContentsSkipped(h, lines, a, b);
  }

  /** Without delimiters every line is inspected. */
  lemma {:induction false} NoDelimitersAllInspected(h: Helpers, lines: seq<string>, i: nat)
    requires i <= |lines|
    requires forall k :: 0 <= k < |lines| ==> !h.isBigBlock(lines[k])
    ensures !InBigBlockAt(h, lines, i)
  {
    if i > 0 {
      NoDelimitersAllInspected(h, lines, i - 1);
    }
  }

  // ---------------------------------------------- body-soft-max-line-length

  const BodyMaxLineLength: nat := 64

  /**
   * The message, spelled out as one literal: the limit (64) and the
   * re-wrapping command, once with `fmt`'s `-u` option for Linux and once
   * without it for macOS.
   */
  const SoftMaxMessage: string :=
    "Please do not exceed 64 characters in the lines of the commit message's body; we recommend this unix command (for editing the last commit message): \nFor Linux users: git log --format=%B -n 1 $(git log -1 --pretty=format:\"%h\") | cat - > log.txt ; fmt -w 1111 -s log.txt > ulog.txt && fmt -w 64 -s -u ulog.txt > wlog.txt && git commit --amend -F wlog.txt\nFor macOS users: git log --format=%B -n 1 $(git log -1 --pretty=format:\"%h\") | cat - > log.txt ; fmt -w 1111 -s log.txt > ulog.txt && fmt -w 64 -s  ulog.txt > wlog.txt && git commit --amend -F wlog.txt"

  /** The lines body-soft-max-line-length walks: the prose split at line breaks. */
  function ProseLines(raw: string): seq<string> {
    match ProseOf(raw)
    case None => []
    case Some(bodyStr) => SplitLines(bodyStr)
  }

  /** A line over the limit that is neither a URL nor a footer note. */
  predicate TooLong(h: Helpers, line: string) {
    |line| > BodyMaxLineLength && !h.isValidUrl(line) && !IsFooterNote(line)
  }

  /** Some inspected line is too long. */
  predicate SomeLongLine(h: Helpers, lines: seq<string>) {
    exists i :: 0 <= i < |lines| && Inspected(h, lines, i) && TooLong(h, lines[i])
  }

  /**
   * body-soft-max-line-length: no inspected line of the prose is too long;
   * URLs and footer notes may exceed the limit.
   */
  method BodySoftMaxLineLength(h: Helpers, raw: string) returns (v: Verdict)
    ensures v.passed <==> !SomeLongLine(h, ProseLines(raw))
    ensures v.message == SoftMaxMessage + h.errMessageSuffix
  {
    var offence := false;
    var prose := ProseOf(raw);
    if prose.Some? {
      var lines := SplitLines(prose.value);
      offence := FindLongLine(h, lines);
    }
    v := Report(h, offence, SoftMaxMessage);
  }

  /** The walk that stops at the first inspected line that is too long. */
  method FindLongLine(h: Helpers, lines: seq<string>) returns (offence: bool)
    ensures offence <==> SomeLongLine(h, lines)
  {
    offence := false;
    var inBigBlock := false;
    for i := 0 to |lines|
      invariant inBigBlock == InBigBlockAt(h, lines, i)
      invariant forall k :: 0 <= k < i && Inspected(h, lines, k) ==> !TooLong(h, lines[k])
    {
      var line := lines[i];
      if h.isBigBlock(line) {
        inBigBlock := !inBigBlock;
        continue;
      }
      if inBigBlock {
        continue;
      }
      if |line| > BodyMaxLineLength {
        var isUrl := h.isValidUrl(line);
        var lineIsFooterNote := IsFooterNote(line);
        if !isUrl && !lineIsFooterNote {
          offence := true;
          assert Inspected(h, lines, i) && TooLong(h, lines[i]);
          break;
        }
      }
    }
  }

  // ---------------------------------------------------- trailing-whitespace

  const TrailingWhitespaceMessage := "Please watch out for leading or ending trailing whitespace."

  predicate IsSpaceOrTab(c: char) {
    c == ' ' || c == '\t'
  }

  /** The line starts or ends with a space or a tab. */
  predicate EdgeWhitespace(line: string) {
    |line| > 0 && (IsSpaceOrTab(line[0]) || IsSpaceOrTab(line[|line| - 1]))
  }

  /** Some inspected line starts or ends with whitespace. */
  predicate SomeEdgeWhitespace(h: Helpers, lines: seq<string>) {
    exists i :: 0 <= i < |lines| && Inspected(h, lines, i) && EdgeWhitespace(lines[i])
  }

  /**
   * trailing-whitespace: no inspected line of the whole message, title
   * included, starts or ends with a space or a tab.
   */
  method TrailingWhitespace(h: Helpers, raw: string) returns (v: Verdict)
    ensures v.passed <==> !SomeEdgeWhitespace(h, SplitLines(raw))
    ensures v.message == TrailingWhitespaceMessage + h.errMessageSuffix
  {
    var lines := SplitLines(raw);
    var offence := FindEdgeWhitespace(h, lines);
    v := Report(h, offence, TrailingWhitespaceMessage);
  }

  /** The walk that stops at the first inspected line with whitespace at an edge. */
  method FindEdgeWhitespace(h: Helpers, lines: seq<string>) returns (offence: bool)
    ensures offence <==> SomeEdgeWhitespace(h, lines)
  {
    offence := false;
    var inBigBlock := false;
    for i := 0 to |lines|
      invariant inBigBlock == InBigBlockAt(h, lines, i)
      invariant forall k :: 0 <= k < i && Inspected(h, lines, k) ==> !EdgeWhitespace(lines[k])
    {
      var line := lines[i];
      if h.isBigBlock(line) {
        inBigBlock := !inBigBlock;
        continue;
      }
      if inBigBlock {
        continue;
      }
      if |line| > 0 && IsSpaceOrTab(line[0]) {
        offence := true;
        assert Inspected(h, lines, i) && EdgeWhitespace(lines[i]);
        break;
      }
      if |line| > 0 {
        var lastChar := line[|line| - 1];
        if IsSpaceOrTab(lastChar) {
          offence := true;
          assert Inspected(h, lines, i) && EdgeWhitespace(lines[i]);
          break;
        }
      }
    }
  }

  /** A one-line message ending in a space fails, unless the helper calls it a delimiter. */
  lemma TrailingSpaceInTitleFails(h: Helpers, title: string)
    requires '\n' !in title && !h.isBigBlock(title + " ")
    ensures SomeEdgeWhitespace(h, SplitLines(title + " "))
  {
    assert Inspected(h, SplitLines(title + " "), 0);
  }

  /** Whitespace inside a big block is ignored: only the lines around it count. */
  lemma WhitespaceInBigBlockIgnored(h: Helpers, open: string, inner: string, close: string)
    requires h.isBigBlock(open) && h.isBigBlock(close) && !h.isBigBlock(inner)
    ensures forall i :: 0 <= i < 3 ==> !Inspected(h, [open, inner, close], i)
  {
    BigBlockContentsSkipped(h, [open, inner, close], 0, 2);
  }
}
