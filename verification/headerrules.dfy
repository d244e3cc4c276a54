/**
 * The rules of commitlint.config.ts that judge the commit title alone:
 * empty-wip, header-max-length-with-suggestions, prefer-slash-over-backslash,
 * title-uppercase, type-space-after-colon, type-with-square-brackets,
 * subject-lowercase, type-space-after-comma and type-space-before-paren.
 * The area/scope of a title is the text before its first colon.
 */
module HeaderRules {
  import opened JsString
  import opened Collaborators
  import opened Classifiers

  /** `c` is the position of the first colon of `header`. */
  predicate FirstColonAt(header: string, c: int) {
    FirstAt(header, ':', c)
  }

  /** `header.indexOf(":")` finds the first colon, and -1 means there is none. */
  lemma ColonIndex(header: string)
    ensures IndexOf(header, ":") == -1 <==> ':' !in header
    ensures IndexOf(header, ":") >= 0 ==> FirstColonAt(header, IndexOf(header, ":"))
    ensures forall c :: FirstColonAt(header, c) ==> IndexOf(header, ":") == c
  {
    IndexOfChar(header, ':');
  }

  // ---------------------------------------------------------------- empty-wip

  const EmptyWipMessage := "Please add a number or description after the WIP prefix."

  /** The title is `wip` in any mix of cases. */
  predicate IsBareWip(header: string) {
    |header| == 3
    && (header[0] == 'w' || header[0] == 'W')
    && (header[1] == 'i' || header[1] == 'I')
    && (header[2] == 'p' || header[2] == 'P')
  }

  /** empty-wip: a title that is only `wip`, whatever its case, fails. */
  function EmptyWip(h: Helpers, header: string): (v: Verdict)
    ensures v.passed <==> !IsBareWip(header)
    ensures v.message == EmptyWipMessage + h.errMessageSuffix
  {
    var lower := ToLowerCase(header);
    assert lower == "wip" <==> IsBareWip(header) by {
      if |header| == 3 {
        assert lower == "wip" <==> lower[0] == 'w' && lower[1] == 'i' && lower[2] == 'p';
      }
    }
    Report(h, lower == "wip", EmptyWipMessage)
  }

  // ----------------------------------------------- prefer-slash-over-backslash

  const BackslashMessage := "Please use slash instead of backslash in the area/scope/sub-area section of the title."

  /**
   * prefer-slash-over-backslash: when the title has a colon, no backslash
   * comes before the first one.
   */
  function PreferSlashOverBackslash(h: Helpers, header: string): (v: Verdict)
    ensures v.passed <==>
      ':' !in header || forall i :: 0 <= i < |header| && header[i] == '\\' ==> ':' in header[..i]
    ensures v.message == BackslashMessage + h.errMessageSuffix
  {
    var colonIndex := IndexOf(header, ":");
    ColonIndex(header);
    if colonIndex >= 0 then
      var areaOrScope := header[..colonIndex];
      BeforeAndAfterFirstColon(header, colonIndex);
      Report(h, '\\' in areaOrScope, BackslashMessage)
    else
      Report(h, false, BackslashMessage)
  }

  /** Exactly the positions before the first colon have no colon before them. */
  lemma BeforeAndAfterFirstColon(header: string, c: int)
    requires FirstColonAt(header, c)
    ensures forall i :: 0 <= i < c ==> header[..c][i] == header[i] && ':' !in header[..i]
    ensures forall i :: c < i <= |header| ==> ':' in header[..i]
  {
    forall i | 0 <= i < c
      ensures header[..c][i] == header[i] && ':' !in header[..i]
    {
      assert forall j :: 0 <= j < i ==> header[..i][j] == header[j];
    }
    forall i | c < i <= |header|
      ensures ':' in header[..i]
    {
      assert header[..i][c] == ':';
    }
  }

  // ---------------------------------------------------------- title-uppercase

  const TitleUppercaseMessage := "Please start the title with an upper-case letter if there is no area in the title."

  /**
   * title-uppercase: a title with no colon must open with a word that starts
   * a sentence or is taken for a proper noun.
   */
  function TitleUppercase(h: Helpers, header: string): (v: Verdict)
    ensures v.passed <==>
      ':' in header || WordIsStartOfSentence(h, FirstWord(header)) || IsProperNoun(h, FirstWord(header))
    ensures v.message == TitleUppercaseMessage + h.errMessageSuffix
  {
    var firstWord := FirstWord(header);
    ColonIndex(header);
    var offence := IndexOf(header, ":") < 0 && !WordIsStartOfSentence(h, firstWord) && !IsProperNoun(h, firstWord);
    Report(h, offence, TitleUppercaseMessage)
  }

  /** A colon-free title that opens with a capitalised plain word passes. */
  lemma CapitalisedTitlePasses(h: Helpers, word: string, rest: string)
    requires ' ' !in word && WordIsStartOfSentence(h, word)
    ensures TitleUppercase(h, word + " " + rest).passed
  {
    FirstWordOf(word, rest);
  }

  /** A colon-free title that opens with a lower-case plain word fails. */
  lemma LowerCaseTitleFails(h: Helpers, word: string, rest: string)
    requires CaseTestsExclusive(h)
    requires ' ' !in word && ':' !in word && ':' !in rest
    requires h.isLowerCase(FirstChar(word))
    requires forall i :: 0 <= i < |word| ==> IsAsciiLower(word[i])
    ensures !TitleUppercase(h, word + " " + rest).passed
  {
    FirstWordOf(word, rest);
    LowerCaseWordIsPlain(h, word);
  }

  /** The first word of `word + " " + rest` is `word`. */
  lemma FirstWordOf(word: string, rest: string)
    requires ' ' !in word
    ensures FirstWord(word + " " + rest) == word
  {
    var s := word + " " + rest;
    var w := FirstWord(s);
    assert s[..|word|] == word;
    assert s[|word|] == ' ';
    assert forall i :: 0 <= i < |word| ==> s[i] != ' ';
    FirstPieceEndsAtSeparator(s, " ");
    assert |w| <= |word| ==> s[..|w|] == w;
    assert OccursAt(s, " ", |w|) ==> s[|w|] == ' ';
  }

  /** Unless it is the whole string, the first piece `split` yields is followed by the separator. */
  lemma FirstPieceEndsAtSeparator(s: string, sep: string)
    requires |sep| > 0
    ensures var p := Split(s, sep)[0]; p == s || OccursAt(s, sep, |p|)
  {
  }

  // --------------------------------------------------- type-space-after-colon

  const SpaceAfterColonMessage := "Please place a space after the first colon character in your commit message title"

  /**
   * type-space-after-colon: unless the title opens with it, the first colon
   * is followed by a space. A first colon that ends the title fails.
   */
  function TypeSpaceAfterColon(h: Helpers, header: string): (v: Verdict)
    ensures v.passed <==> forall c :: FirstColonAt(header, c) && c > 0 ==> c + 1 < |header| && header[c + 1] == ' '
    ensures v.message == SpaceAfterColonMessage + h.errMessageSuffix
  {
    var colonFirstIndex := IndexOf(header, ":");
    ColonIndex(header);
    var offence :=
      colonFirstIndex > 0 && |header| > colonFirstIndex
      && !(colonFirstIndex + 1 < |header| && header[colonFirstIndex + 1] == ' ');
    Report(h, offence, SpaceAfterColonMessage)
  }

  /** A title whose only colon is its last character fails the rule. */
  lemma ColonAsLastCharacterFails(h: Helpers, area: string)
    requires |area| > 0 && ':' !in area
    ensures !TypeSpaceAfterColon(h, area + ":").passed
  {
    assert FirstColonAt(area + ":", |area|) by {
      assert (area + ":")[..|area|] == area;
    }
  }

  // ------------------------------------------------ type-with-square-brackets

  const SquareBracketsMessage := "Please use \"area/scope: subject\" or \"area(scope): subject\" style instead of wrapping area/scope under square brackets in your commit message title"

  /** The characters a regular-expression `.` does not match. */
  predicate IsLineTerminator(c: char) {
    c == '\n' || c == '\r' || c == '\U{2028}' || c == '\U{2029}'
  }

  /** From position `k` on, a `]` comes before any line terminator. */
  function ClosesFrom(s: string, k: nat): (r: bool)
    requires k <= |s|
    ensures r <==> exists j :: k <= j < |s| && s[j] == ']' && forall i :: k <= i < j ==> !IsLineTerminator(s[i])
    decreases |s| - k
  {
    if k == |s| then false
    else if s[k] == ']' then true
    else if IsLineTerminator(s[k]) then false
    else ClosesFrom(s, k + 1)
  }

  /**
   * type-with-square-brackets: /^\[.*\]/ must not match, that is the title
   * must not open with `[` followed, on the same line, by a `]`.
   */
  function TypeWithSquareBrackets(h: Helpers, header: string): (v: Verdict)
    ensures v.passed <==>
      !(|header| > 0 && header[0] == '['
        && exists j :: 0 < j < |header| && header[j] == ']' && forall i :: 0 < i < j ==> !IsLineTerminator(header[i]))
    ensures v.message == SquareBracketsMessage + h.errMessageSuffix
  {
    var offence := |header| > 0 && header[0] == '[' && ClosesFrom(header, 1);
    Report(h, offence, SquareBracketsMessage)
  }

  // --------------------------------------------------------- subject-lowercase

  const SubjectLowercaseMessage := "Please use lowercase as the first letter for your subject, i.e. the text after your area/scope."

  /** The subject as the rule sees it: the trimmed text after the first colon. */
  function SubjectAfter(header: string, c: nat): string
    requires c < |header|
  {
    Trim(header[c + 1..])
  }

  /**
   * subject-lowercase: when the title has an area, a subject of two or more
   * characters must not open with a word that starts a sentence.
   */
  function SubjectLowercase(h: Helpers, header: string): (v: Verdict)
    ensures v.passed <==>
      forall c :: FirstColonAt(header, c) && c > 0 && |SubjectAfter(header, c)| > 1
        ==> !WordIsStartOfSentence(h, FirstWord(SubjectAfter(header, c)))
    ensures v.message == SubjectLowercaseMessage + h.errMessageSuffix
  {
    var colonFirstIndex := IndexOf(header, ":");
    ColonIndex(header);
    var offence :=
      if colonFirstIndex > 0 && |header| > colonFirstIndex then
        var subject := Trim(header[colonFirstIndex + 1..]);
        if |subject| > 1 then
          TrimIdempotent(header[colonFirstIndex + 1..]);
          WordIsStartOfSentence(h, FirstWord(Trim(subject)))
        else
          false
      else
        false;
    Report(h, offence, SubjectLowercaseMessage)
  }

  /** `area: subject` with a capitalised plain first word in the subject fails. */
  lemma CapitalisedSubjectFails(h: Helpers, area: string, subject: string)
    requires |area| > 0 && ':' !in area
    requires |subject| > 1 && !IsWhitespace(subject[0]) && !IsWhitespace(subject[|subject| - 1])
    requires WordIsStartOfSentence(h, FirstWord(subject))
    ensures !SubjectLowercase(h, area + ": " + subject).passed
  {
    var header := area + ": " + subject;
    SubjectOf(area, subject);
    assert FirstColonAt(header, |area|);
  }

  /** `area: subject` whose subject opens with a lower-case letter passes. */
  lemma LowerCaseSubjectPasses(h: Helpers, area: string, subject: string)
    requires CaseTestsExclusive(h)
    requires |area| > 0 && ':' !in area
    requires |subject| > 0 && !IsWhitespace(subject[0]) && !IsWhitespace(subject[|subject| - 1])
    requires h.isLowerCase([subject[0]])
    ensures SubjectLowercase(h, area + ": " + subject).passed
  {
    var header := area + ": " + subject;
    SubjectOf(area, subject);
    ColonIndex(header);
    var w := FirstWord(subject);
    if |w| > 0 {
      assert w[0] == subject[0];
      assert !h.isUpperCase(FirstChar(w));
    }
  }

  /** A colon right after a colon-free area is the first colon. */
  lemma AreaEndsAtColon(area: string, sep: string, rest: string)
    requires ':' !in area && |sep| > 0 && sep[0] == ':'
    ensures FirstColonAt(area + sep + rest, |area|)
  {
    var header := area + sep + rest;
    assert forall j :: 0 <= j < |area| ==> header[j] == area[j];
    assert header[|area|] == sep[0];
  }

  /** In `area: subject` the first colon ends the area and the subject is what follows. */
  lemma SubjectOf(area: string, subject: string)
    requires ':' !in area
    requires |subject| > 0 && !IsWhitespace(subject[0]) && !IsWhitespace(subject[|subject| - 1])
    ensures FirstColonAt(area + ": " + subject, |area|)
    ensures SubjectAfter(area + ": " + subject, |area|) == subject
  {
    var header := area + ": " + subject;
    AreaEndsAtColon(area, ": ", subject);
    assert header[|area| + 1..] == " " + subject;
    assert (" " + subject)[1..] == subject;
    TrimOfTrimmed(subject);
    assert TrimStart(" " + subject) == TrimStart(subject) == subject;
  }

  // ---------------------------------------------------- type-space-after-comma

  const SpaceAfterCommaMessage := "No need to use space after comma in the area/scope (so that commit title can be shorter)."

  /** The comma at index `i` of `s` is directly followed by a space. */
  predicate CommaSpaceAt(s: string, i: int) {
    0 <= i && i + 1 < |s| && s[i] == ',' && s[i + 1] == ' '
  }

  /** Some comma of `s` is directly followed by a space. */
  predicate CommaThenSpace(s: string) {
    exists i :: 0 <= i < |s| && CommaSpaceAt(s, i)
  }

  /**
   * type-space-after-comma: no comma of the area is followed by a space.
   * The loop visits every comma, cutting the area after each one.
   */
  method TypeSpaceAfterComma(h: Helpers, header: string) returns (v: Verdict)
    ensures v.passed <==> forall c :: FirstColonAt(header, c) ==> !CommaThenSpace(header[..c])
    ensures v.message == SpaceAfterCommaMessage + h.errMessageSuffix
  {
    var offence := false;
    var colonIndex := IndexOf(header, ":");
    ColonIndex(header);
    if colonIndex >= 0 {
      var areaOrScope := header[..colonIndex];
      ghost var area := areaOrScope;
      ghost var base := 0;
      var commaIndex := IndexOf(areaOrScope, ",");
      IndexOfChar(areaOrScope, ',');
      while commaIndex >= 0
        invariant 0 <= base <= |area| && areaOrScope == area[base..]
        invariant commaIndex == IndexOf(areaOrScope, ",")
        invariant commaIndex == -1 ==> ',' !in areaOrScope
        invariant commaIndex >= 0 ==> FirstAt(areaOrScope, ',', commaIndex)
        invariant offence <==> exists i :: 0 <= i < base && CommaSpaceAt(area, i)
        decreases |areaOrScope|
      {
        var spaceFollows := commaIndex + 1 < |areaOrScope| && areaOrScope[commaIndex + 1] == ' ';
        if spaceFollows {
          offence := true;
        }
        CommasSkipped(area, base, commaIndex);
        CommaStep(area, base, commaIndex, spaceFollows);
        base := base + commaIndex + 1;
        areaOrScope := areaOrScope[commaIndex + 1..];
        commaIndex := IndexOf(areaOrScope, ",");
        IndexOfChar(areaOrScope, ',');
      }
      NoCommaAfter(area, base);
    }
    v := Report(h, offence, SpaceAfterCommaMessage);
  }

  /** Between the cut and the next comma there is no comma. */
  lemma CommasSkipped(area: string, base: int, k: int)
    requires 0 <= base && 0 <= k && base + k < |area|
    requires FirstAt(area[base..], ',', k)
    ensures area[base + k] == ','
    ensures forall i :: base <= i < base + k ==> area[i] != ','
  {
    assert area[base + k] == area[base..][k];
    forall i | base <= i < base + k
      ensures area[i] != ','
    {
      assert area[i] == area[base..][i - base];
    }
  }

  /** Cutting after the next comma adds exactly that comma to the commas looked at. */
  lemma CommaStep(area: string, base: int, k: int, spaceFollows: bool)
    requires 0 <= base && 0 <= k && base + k < |area| && area[base + k] == ','
    requires forall i :: base <= i < base + k ==> area[i] != ','
    requires spaceFollows <==> k + 1 < |area[base..]| && area[base..][k + 1] == ' '
    ensures (exists i :: 0 <= i < base + k + 1 && CommaSpaceAt(area, i))
      <==> (exists i :: 0 <= i < base && CommaSpaceAt(area, i)) || spaceFollows
  {
    assert spaceFollows <==> CommaSpaceAt(area, base + k);
  }

  /** Once the rest holds no comma, the commas looked at are all there are. */
  lemma NoCommaAfter(area: string, base: int)
    requires 0 <= base <= |area| && ',' !in area[base..]
    ensures CommaThenSpace(area) <==> exists i :: 0 <= i < base && CommaSpaceAt(area, i)
  {
    forall i | base <= i < |area|
      ensures area[i] != ','
    {
      assert area[i] == area[base..][i - base];
    }
  }

  // --------------------------------------------------- type-space-before-paren

  const SpaceBeforeParenMessage := "No need to use space before parentheses in the area/scope/sub-area section of the title."

  /**
   * type-space-before-paren: the first `(` of the area is not preceded by a
   * space. Later parentheses of the area are not looked at.
   */
  function TypeSpaceBeforeParen(h: Helpers, header: string): (v: Verdict)
    ensures v.passed <==>
      forall c, p :: FirstColonAt(header, c) && 0 < p < c && FirstAt(header, '(', p) ==> header[p - 1] != ' '
    ensures v.message == SpaceBeforeParenMessage + h.errMessageSuffix
  {
    var colonIndex := IndexOf(header, ":");
    ColonIndex(header);
    var offence :=
      if colonIndex >= 0 then
        var areaOrScope := header[..colonIndex];
        var parenIndex := IndexOf(areaOrScope, "(");
        IndexOfChar(areaOrScope, '(');
        FirstAtInPrefix(header, '(', colonIndex);
        parenIndex >= 1 && header[parenIndex - 1] == ' '
      else
        false;
    Report(h, offence, SpaceBeforeParenMessage)
  }

  /**
   * A space before a later `(` of the area goes unnoticed: when the first
   * `(` before the first colon is well placed, the header passes whatever
   * precedes the parentheses after it.
   */
  lemma SecondParenNotChecked(h: Helpers, header: string, c: int, p: int, q: int)
    requires FirstColonAt(header, c) && 0 < p < q < c
    requires FirstAt(header, '(', p) && header[p - 1] != ' '
    requires header[q] == '(' && header[q - 1] == ' '
    ensures TypeSpaceBeforeParen(h, header).passed
  {
    forall c', p' | FirstColonAt(header, c') && 0 < p' < c' && FirstAt(header, '(', p')
      ensures header[p' - 1] != ' '
    {
      FirstAtUnique(header, ':', c, c');
      FirstAtUnique(header, '(', p, p');
    }
  }

  // --------------------------------------- header-max-length-with-suggestions

  const SuggestionsPreamble := " The following replacement(s) in your commit title are recommended:\n"

  /** The opening sentence of the message. */
  function LengthMessage(maxLineLength: nat, headerLength: nat): string {
    "Please do not exceed " + NatToString(maxLineLength) + " characters in title (found "
    + NatToString(headerLength) + ")."
  }

  /** One suggested replacement line. */
  function SuggestionLine(key: string, value: string): string {
    "\"" + key + "\" -> \"" + value + "\"\n"
  }

  /**
   * `message` with the abbreviation table worked through entry by entry:
   * each entry whose key the word-boundary test finds in the title appends
   * the preamble and then its replacement line (the recommendation counter
   * is never incremented, so every match repeats the preamble).
   */
  function AppendSuggestions(message: string, abbr: seq<(string, string)>, found: (string, string) -> bool, title: string): (r: string)
    ensures |r| >= |message|
  {
    if abbr == [] then message
    else
      var last := abbr[|abbr| - 1];
      var before := AppendSuggestions(message, abbr[..|abbr| - 1], found, title);
      if found(last.0, title) then before + SuggestionsPreamble + SuggestionLine(last.0, last.1) else before
  }

  /** The message is left as it is exactly when no key of the table is found. */
  lemma {:induction false} NoSuggestionsIffNoMatch(message: string, abbr: seq<(string, string)>, found: (string, string) -> bool, title: string)
    ensures AppendSuggestions(message, abbr, found, title) == message
      <==> forall k :: 0 <= k < |abbr| ==> !found(abbr[k].0, title)
  {
    if abbr != [] {
      var init := abbr[..|abbr| - 1];
      NoSuggestionsIffNoMatch(message, init, found, title);
      assert forall k :: 0 <= k < |init| ==> init[k] == abbr[k];
    }
  }

  /** Two found keys give the preamble twice, once before each replacement. */
  lemma PreamblePerMatch(message: string, found: (string, string) -> bool, title: string, a: (string, string), b: (string, string))
    requires found(a.0, title) && found(b.0, title)
    ensures AppendSuggestions(message, [a, b], found, title)
      == message + SuggestionsPreamble + SuggestionLine(a.0, a.1) + SuggestionsPreamble + SuggestionLine(b.0, b.1)
  {
    assert [a, b][..1] == [a];
    assert [a][..0] == [];
    assert AppendSuggestions(message, [a], found, title) == message + SuggestionsPreamble + SuggestionLine(a.0, a.1);
  }

  /** The part of the title searched for abbreviations: from its first colon on, if that is not its first character. */
  function TitleWithoutArea(header: string): (r: string)
    ensures ':' !in header || header[0] == ':' ==> r == header
    ensures forall c :: 0 < c && FirstColonAt(header, c) ==> r == header[c..]
  {
    var colonIndex := IndexOf(header, ":");
    ColonIndex(header);
    if colonIndex > 0 then header[colonIndex..] else header
  }

  /**
   * header-max-length-with-suggestions: a title longer than the maximum
   * fails unless it starts with `Merge `; a failing title's message lists
   * the abbreviations found in it. `found(key, text)` is the word-boundary
   * search `\b(key)\b` in `text`.
   */
  method HeaderMaxLengthWithSuggestions(
    h: Helpers, abbr: seq<(string, string)>, found: (string, string) -> bool,
    header: string, maxLineLength: nat)
    returns (v: Verdict)
    ensures v.passed <==> StartsWith(header, "Merge ") || |header| <= maxLineLength
    ensures v.passed ==> v.message == LengthMessage(maxLineLength, |header|) + h.errMessageSuffix
    ensures !v.passed ==>
      v.message
        == AppendSuggestions(LengthMessage(maxLineLength, |header|), abbr, found, ToLowerCase(TitleWithoutArea(header)))
        + h.errMessageSuffix
  {
    var offence := false;
    var headerLength := |header|;
    var message := LengthMessage(maxLineLength, headerLength);
    if !StartsWith(header, "Merge ") && headerLength > maxLineLength {
      offence := true;
      var colonIndex := IndexOf(header, ":");
      var titleWithoutArea := header;
      if colonIndex > 0 {
        titleWithoutArea := header[colonIndex..];
      }
      var numRecommendations := 0;
      var lowerCaseTitleWithoutArea := ToLowerCase(titleWithoutArea);
      for k := 0 to |abbr|
        invariant message == AppendSuggestions(LengthMessage(maxLineLength, headerLength), abbr[..k], found, lowerCaseTitleWithoutArea)
      {
        var (key, value) := abbr[k];
        assert abbr[..k + 1][..k] == abbr[..k];
        if found(key, lowerCaseTitleWithoutArea) {
          if numRecommendations == 0 {
            message := message + SuggestionsPreamble;
          }
          message := message + SuggestionLine(key, value);
        }
      }
      assert abbr[..|abbr|] == abbr;
    }
    v := Report(h, offence, message);
  }
}
