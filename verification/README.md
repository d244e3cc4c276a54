# A verified model of the commit-message rules of commitlint.config.ts

The repository lints git commit messages. Its configuration file,
`commitlint.config.ts`, defines some small classifiers and a plugin of custom
rules. The classifiers recognise footer notes, proper nouns, sentence-starting
words, `#123` issue references and fenced code blocks. The rules are:

- title rules: `empty-wip`, `header-max-length-with-suggestions`,
  `prefer-slash-over-backslash`, `title-uppercase`, `type-space-after-colon`,
  `type-with-square-brackets`, `subject-lowercase`, `type-space-after-comma`,
  `type-space-before-paren`;
- body rules: `body-prose`, `footer-notes-misplacement`,
  `footer-references-existence`, `proper-issue-refs`, `too-many-spaces`,
  `body-soft-max-line-length`, `trailing-whitespace`.

Each rule takes the commit's title or raw message and returns a pair. The pair
holds whether the message passed and a message ending in the helper module's
suffix.

This project restates those classifiers and rules in Dafny and proves what
each one accepts and rejects. The modules follow the structure of the file:

- `JsString`: the JavaScript string operations the rules rely on: `indexOf`,
  `trim`, `split` on a literal, `split(/\r?\n/)`, `toLowerCase` and number
  formatting.
- `Collaborators`: the helper module the file imports, passed in as a value
  (`Helpers`). It holds the case tests, the URL test, the big-block test and
  the message suffix. It also holds the verdict pair (`Verdict`, `Report`).
- `Classifiers`: the functions at the top of the file, lines 14-72.
- `Segmenter`: the shared first step of the body rules. It trims the raw
  message and keeps everything from its first line break on.
- `HeaderRules`, `FooterRules`, `ProseRules`, `LineRules`: the rules.

Where a rule walks over something with a loop, it is a `method` with that loop.
Its contract ties the verdict to a declarative predicate, for example "some
inspected line is too long". Lemmas then say what the predicate accepts and
rejects. Rules that compute their verdict in one expression are `function`s.

Where the code and the rule descriptions of the project disagree, the model
follows the code:

- `type-space-after-colon` fails a title whose first colon is its last
  character, because `headerStr[colonFirstIndex + 1]` is then `undefined`.
- `type-space-before-paren` looks only at the first `(` of the area, not at
  every one.
- The suffix is appended to the message whether the rule passed or failed.
- `paragraphHasValidEnding` recurses on the single character before a closing
  `)`, not on the paragraph without it. So `word)` is never a valid ending
  unless the helper takes the last word or that one character for a URL. The
  model keeps this behaviour and states it in
  `ProseRules.ClosingParenAfterWord`.

## Model

| member | source | states |
|---|---|---|
| `JsString.IndexOf` | commitlint.config.ts:16 | `indexOf`: -1 exactly when the substring does not occur, otherwise the first position where it occurs |
| `JsString.IndexOfZeroIsPrefix` | commitlint.config.ts:21 | `indexOf(p) == 0` holds exactly when the line starts with `p` |
| `JsString.Trim` | commitlint.config.ts:117 | `trim()` removes exactly the whitespace at both ends: the result sits in the input with only whitespace before and after it and has none at its own ends; it is empty exactly when the input is all whitespace |
| `JsString.TrimIdempotent` | commitlint.config.ts:432-434 | trimming the subject a second time changes nothing |
| `JsString.Split` | commitlint.config.ts:131 | `split(sep)` returns pieces that join back to the input, none containing the separator; without a separator the input is the only piece, otherwise the first piece is the text before the first separator |
| `JsString.FirstWord` | commitlint.config.ts:371 | `split(' ')[0]` is the text up to its first space, or the whole text when it has none |
| `JsString.SplitLines` | commitlint.config.ts:164 | `split(/\r?\n/)` gives lines without line breaks; a text without `\n` is its own single line, and otherwise the first line is the text before the first `\n`, less a `\r` right before it |
| `JsString.SplitLinesAtBreaks` | commitlint.config.ts:164 | `split(/\r?\n/)` gives the pieces of `split('\n')`, one `\r` dropped from the end of every piece but the last, so every line is fixed |
| `JsString.ToLowerCase` | commitlint.config.ts:197 | lowercasing keeps the length and maps each upper-case ASCII letter to its lower-case letter |
| `JsString.NatToString` | commitlint.config.ts:210 | a number is written as decimal digits that denote it, with no leading zero except for 0, and one digit exactly below ten |
| `JsString.LastPiece` | commitlint.config.ts:130-131 | the last piece of `split(sep)` is the text after the last separator: a suffix free of the separator, preceded by one when the text holds one, and the whole text otherwise |
| `JsString.LastPieceOfSplit` | commitlint.config.ts:130-131 | that piece is the last element of the array `split(sep)` returns |
| `JsString.LastPieceOfChar` | commitlint.config.ts:130-131 | for a one-character separator the last word starts right after the separator's last position, or is the whole text when the separator does not occur |
| `Classifiers.IsFooterReference` | commitlint.config.ts:14-17 | a line is a footer reference exactly when it starts with `[` and has `] ` at a position after 0 |
| `Classifiers.IsFixesOrClosesSentence` | commitlint.config.ts:19-22 | exactly the lines starting with `Fixes ` or `Closes ` |
| `Classifiers.IsCoAuthoredByTag` | commitlint.config.ts:24-27 | exactly the lines starting with `Co-authored-by: ` |
| `Classifiers.FooterNoteForms` | commitlint.config.ts:14-34 | a line is a footer note exactly when it opens with `[` and holds `] ` further on, or starts with `Fixes `, `Closes ` or `Co-authored-by: ` |
| `Classifiers.EmptyLineIsNoFooterNote` | commitlint.config.ts:29-34 | the empty line is not a footer note |
| `Classifiers.StripUpper` | commitlint.config.ts:38 | removing `[A-Z]` leaves no capital, and shortens the word exactly when it has one |
| `Classifiers.StripUpperCount` | commitlint.config.ts:38 | removing `[A-Z]` drops exactly one character per position holding a capital |
| `Classifiers.StripUpperInOrder` | commitlint.config.ts:38 | what is left is the word with some characters deleted, the rest in their order |
| `Classifiers.StripUpperKeepsTheRest` | commitlint.config.ts:38 | every character that is not a capital is kept as often as it occurs, and no capital is |
| `Classifiers.KeepLetters` | commitlint.config.ts:43 | removing `[^a-zA-Z]` leaves only letters, and keeps the whole word exactly when it is all letters |
| `Classifiers.KeepLettersCount` | commitlint.config.ts:43 | removing `[^a-zA-Z]` drops exactly one character per position holding a non-letter |
| `Classifiers.KeepLettersInOrder` | commitlint.config.ts:43 | what is left is the word with some characters deleted, the rest in their order |
| `Classifiers.KeepLettersKeepsLetters` | commitlint.config.ts:43 | every letter is kept as often as it occurs, and nothing else is; with the two rows above, the result is the word's letters in order |
| `Classifiers.NumUpperCaseLetters` | commitlint.config.ts:36-39 | the count is the number of positions holding an ASCII capital: 0 exactly when there is none, 1 exactly when there is one |
| `Classifiers.NumNonAlphabeticalCharacters` | commitlint.config.ts:41-44 | the count is the number of positions holding anything but an ASCII letter, 0 exactly when every character is one |
| `Classifiers.IsProperNoun` | commitlint.config.ts:46-54 | proper noun: a non-letter, or upper-case start and more than one capital, or lower-case start and some capital |
| `Classifiers.WordIsStartOfSentence` | commitlint.config.ts:56-64 | sentence start: upper-case first character, exactly one capital, letters only |
| `Classifiers.SentenceStartIsNotProperNoun` | commitlint.config.ts:46-64 | when no character is both upper and lower case, a sentence-starting word is never a proper noun |
| `Classifiers.LowerCaseWordIsPlain` | commitlint.config.ts:46-64 | a word of lower-case letters is neither a sentence start nor a proper noun |
| `Classifiers.IncludesHashtagRef` | commitlint.config.ts:66-68 | `#[0-9]+` matches exactly when some `#` is directly followed by a digit |
| `Classifiers.RemoveAllCodeBlocks` | commitlint.config.ts:70-72 | without two fences nothing changes; otherwise the text from the first fence to the end of the last is cut and no fence remains |
| `Classifiers.FencedBlockByEnds` | commitlint.config.ts:70-72 | two fences exist, the second after the first ends, exactly when the last fence starts at least three characters after the first |
| `Classifiers.NoBacktickNothingRemoved` | commitlint.config.ts:70-72 | text without a backtick is left unchanged |
| `Classifiers.RemoveAllCodeBlocksIdempotent` | commitlint.config.ts:70-72 | removing code blocks twice is the same as once |
| `Classifiers.RemovesCodeBlock` | commitlint.config.ts:70-72 | a code block between backtick-free text is removed, leaving the text around it |
| `Segmenter.BodyOf` | commitlint.config.ts:117-123 | the body region is the trimmed message from its first line break on; there is none exactly when the trimmed message has no line break |
| `Segmenter.ProseOf` | commitlint.config.ts:117-127 | there is no prose without a body region; with one, there is none exactly when the region without its code blocks is all whitespace; the prose is that text less the whitespace at both ends, so it sits in the text with only whitespace around it, and it has no fenced block |
| `Segmenter.BodyRoundTrip` | commitlint.config.ts:117-123 | for `title + "\n\n" + body` the region is the blank line plus the body, and trimming it gives the body back |
| `Segmenter.BodyLinesOfMessage` | commitlint.config.ts:245-256 | the lines the footer rules walk for `title + "\n\n" + body` are the lines of the body |
| `Segmenter.ProseOfMessage` | commitlint.config.ts:123-126 | the prose read for `title + "\n\n" + body` with no backtick is the body itself |
| `HeaderRules.ColonIndex` | commitlint.config.ts:333 | `indexOf(":")` is -1 exactly without a colon, otherwise the first colon |
| `HeaderRules.EmptyWip` | commitlint.config.ts:195-203 | fails exactly on the titles `wip` in any mix of cases |
| `HeaderRules.PreferSlashOverBackslash` | commitlint.config.ts:328-345 | with a colon in the title, fails exactly when a backslash comes before the first colon |
| `HeaderRules.TitleUppercase` | commitlint.config.ts:369-380 | a title without a colon passes only when its first word starts a sentence or is a proper noun |
| `HeaderRules.CapitalisedTitlePasses` | commitlint.config.ts:369-380 | a title opening with a capitalised plain word passes |
| `HeaderRules.LowerCaseTitleFails` | commitlint.config.ts:369-380 | a colon-free title opening with a lower-case word fails |
| `HeaderRules.FirstWordOf` | commitlint.config.ts:371 | the first word of `word + " " + rest` is `word` |
| `HeaderRules.TypeSpaceAfterColon` | commitlint.config.ts:394-411 | a first colon not at position 0 must be followed by a space, so a colon that ends the title fails |
| `HeaderRules.ColonAsLastCharacterFails` | commitlint.config.ts:398-403 | `area:` with nothing after the colon fails |
| `HeaderRules.ClosesFrom` | commitlint.config.ts:416 | from a position on, a `]` comes before any line terminator |
| `HeaderRules.TypeWithSquareBrackets` | commitlint.config.ts:413-424 | `^\[.*\]` matches: the title opens with `[` followed on the same line by a `]` |
| `HeaderRules.SubjectLowercase` | commitlint.config.ts:426-444 | with an area, a subject of two or more characters must not open with a sentence-starting word |
| `HeaderRules.CapitalisedSubjectFails` | commitlint.config.ts:426-444 | `area: Subject ...` with a capitalised plain first word fails |
| `HeaderRules.LowerCaseSubjectPasses` | commitlint.config.ts:426-444 | `area: subject` starting lower case passes |
| `HeaderRules.TypeSpaceAfterComma` | commitlint.config.ts:446-468 | the loop over commas fails exactly when a comma of the area is followed by a space |
| `HeaderRules.TypeSpaceBeforeParen` | commitlint.config.ts:559-578 | fails exactly when the first `(` of the area follows a space |
| `HeaderRules.SecondParenNotChecked` | commitlint.config.ts:567-572 | for every title whose first `(` before the first colon follows a non-space, a later `(` of the area after a space is not reported |
| `HeaderRules.TitleWithoutArea` | commitlint.config.ts:214-219 | with a first colon past position 0 the title is cut to start at that colon; otherwise it is kept whole |
| `HeaderRules.NoSuggestionsIffNoMatch` | commitlint.config.ts:223-232 | nothing is suggested exactly when no abbreviation is found in the title |
| `HeaderRules.PreamblePerMatch` | commitlint.config.ts:225-229 | every found abbreviation repeats the preamble, because the counter stays 0 |
| `HeaderRules.HeaderMaxLengthWithSuggestions` | commitlint.config.ts:205-240 | passes exactly for `Merge ` titles or titles within the maximum; a failing message lists the abbreviations found after the area |
| `FooterRules.FooterNotesMisplacement` | commitlint.config.ts:242-276 | fails exactly when a footer note is followed by a non-empty line that is not a footer note |
| `FooterRules.FindMisplacedNote` | commitlint.config.ts:253-266 | the walk with `seenFooter` and `break` finds exactly a note followed by a prose line |
| `FooterRules.NotesAfterProseArePlaced` | commitlint.config.ts:253-266 | prose lines followed only by notes and blank lines are never misplaced |
| `FooterRules.NoteBeforeProseFails` | commitlint.config.ts:242-276 | a message whose body is a note and then a prose line is reported |
| `FooterRules.ListedRefsHolds` | commitlint.config.ts:293-303 | a number is listed exactly when some footer reference line holds it |
| `FooterRules.CitedRefsHolds` | commitlint.config.ts:293-303 | a number is cited exactly when some other line holds it |
| `FooterRules.CollectRefs` | commitlint.config.ts:293-305 | the walk puts every match of a footer reference line in one set and every other match in the other |
| `FooterRules.AddAll` | commitlint.config.ts:298-304 | the inner loop adds every match of the line to its set |
| `FooterRules.IsSubset` | commitlint.config.ts:307-318 | the loop with `break` finds exactly a member of one set missing from the other |
| `FooterRules.RefsDisagree` | commitlint.config.ts:290-318 | an offence is raised exactly when the cited and the listed numbers differ |
| `FooterRules.FooterReferencesExistence` | commitlint.config.ts:278-326 | passes exactly when the numbers cited in the body equal the numbers listed in the footer |
| `FooterRules.UnlistedCitationFails` | commitlint.config.ts:307-312 | a number cited in the body but in no footer reference line fails the rule |
| `FooterRules.UncitedListingFails` | commitlint.config.ts:313-318 | a number listed in the footer but cited nowhere fails the rule |
| `FooterRules.RefsAreBracketedNumbers` | commitlint.config.ts:294 | the matches of `/(?<=\[)([0-9]+)(?=\])/g` in a line (`RefsIn`) are exactly the non-empty digit strings written between `[` and `]` in it |
| `FooterRules.BracketedNumberIsRef` | commitlint.config.ts:294 | a digit run written as `[n]` is matched as a reference |
| `ProseRules.ParagraphHasValidEnding` | commitlint.config.ts:129-150 | valid ending: the last space-separated word is a URL, or the last character ends a sentence, or it is `)` after a sentence end or after a character whose last space-separated piece the helper takes for a URL |
| `ProseRules.ClosingParenAfterFullStop` | commitlint.config.ts:143-146 | a paragraph ending `.)` is well ended |
| `ProseRules.ClosingParenAfterWord` | commitlint.config.ts:143-146 | a paragraph ending in a letter and `)` is not well ended unless a URL test says otherwise |
| `ProseRules.BodyProse` | commitlint.config.ts:114-188 | passes exactly when every paragraph of the prose is well begun and well ended |
| `ProseRules.CheckParagraphs` | commitlint.config.ts:152-178 | the walk over all paragraphs reports exactly when one of them is bad |
| `ProseRules.ParagraphOffence` | commitlint.config.ts:154-177 | a paragraph is an offence exactly when it starts lower case (unless it is one URL line) or ends badly (unless its last line is a URL or footer note) |
| `ProseRules.StartOrEndOffence` | commitlint.config.ts:159-176 | reports exactly when the paragraph starts lower case and is not one URL line, or its ending is invalid and its last line is neither a URL nor a footer note |
| `ProseRules.LowerCaseParagraphFails` | commitlint.config.ts:162-170 | a one-line paragraph that starts lower case and is no URL is bad |
| `ProseRules.SentenceParagraphPasses` | commitlint.config.ts:162-176 | a paragraph that does not start lower case and ends with `.` is fine |
| `ProseRules.BadBodyFails` | commitlint.config.ts:114-188 | a message whose single-paragraph body is bad is reported |
| `ProseRules.ProperIssueRefs` | commitlint.config.ts:348-367 | a message without a body region passes |
| `ProseRules.IssueRefsOfRegion` | commitlint.config.ts:353-359 | with a body region, the rule fails exactly when the region without code blocks has `#` and a digit |
| `ProseRules.HashtagInCodeBlockIgnored` | commitlint.config.ts:357-359 | a `#123` inside a code block of the body is not reported |
| `ProseRules.CodeBlockRefIgnored` | commitlint.config.ts:358-359 | the references of a code block vanish with it |
| `ProseRules.HashtagInProseFails` | commitlint.config.ts:348-367 | a `#` and a digit in a backtick-free body fail the rule |
| `ProseRules.DoubleSpaceAfterNonDot` | commitlint.config.ts:385 | `[^.]  ` matches exactly when some character other than `.` is followed by two spaces |
| `ProseRules.TooManySpaces` | commitlint.config.ts:382-392 | outside code blocks, every double space must follow a full stop |
| `ProseRules.TwoSpacesAfterFullStopPass` | commitlint.config.ts:382-392 | two spaces after a full stop are allowed |
| `ProseRules.TwoSpacesAfterWordFail` | commitlint.config.ts:382-392 | two spaces after a word are reported |
| `LineRules.InBigBlockIffOddDelimiters` | commitlint.config.ts:486-494 | the `inBigBlock` toggle is set exactly after an odd number of delimiter lines |
| `LineRules.BigBlockContentsSkipped` | commitlint.config.ts:486-494 | the delimiter that opens a block and the lines up to the next delimiter are not inspected |
| `LineRules.BigBlockClosed` | commitlint.config.ts:486-494 | the closing delimiter ends the block |
| `LineRules.NoDelimitersAllInspected` | commitlint.config.ts:529-537 | without delimiter lines the walk is never inside a block |
| `LineRules.BodySoftMaxLineLength` | commitlint.config.ts:470-521 | passes exactly when no inspected prose line is longer than 64 without being a URL or a footer note |
| `LineRules.FindLongLine` | commitlint.config.ts:486-504 | the walk with the toggle and `break` finds exactly an inspected line that is too long |
| `LineRules.TrailingWhitespace` | commitlint.config.ts:523-557 | passes exactly when no inspected line of the whole message starts or ends with a space or tab |
| `LineRules.FindEdgeWhitespace` | commitlint.config.ts:529-550 | the walk finds exactly an inspected line with whitespace at an edge |
| `LineRules.TrailingSpaceInTitleFails` | commitlint.config.ts:539-548 | a one-line message ending in a space is reported |
| `LineRules.WhitespaceInBigBlockIgnored` | commitlint.config.ts:529-537 | lines between two delimiters are not inspected |

## Left out

- `commit-hash-alone` (lines 190-193) delegates to the plugin module, which is not part of this model.
- `Helpers.assertLine`, `Helpers.assertWord` and `Helpers.convertAnyToString` are not part of this model. The model takes every input to be a string that these checks accept.
- The helper module's `isUpperCase`, `isLowerCase`, `isValidUrl` and `isBigBlock` are arbitrary functions in the model. Lemmas that need a property of them state it as a requirement, for example that no character is both upper and lower case.
- The abbreviation table is a parameter, and so is the `\b(key)\b` test. The table's contents and JavaScript's word-boundary matching are not modelled.
- `HeaderRules.HeaderMaxLengthWithSuggestions` takes the maximum as a parameter. The configuration passes 50; the model proves the rule for every maximum.
- `toLowerCase` lowers ASCII letters only. Other scripts' case mappings are not modelled.
- Lengths are counted in Unicode code points, while JavaScript counts UTF-16 code units. The two differ only for characters outside the Basic Multilingual Plane.
- `RefsIn` gives the set of matches of the reference pattern, not the array `match` returns. The rule only adds the matches to sets, so order and repetition do not matter.
- The loops over sets pick their elements in an unspecified order, where JavaScript uses insertion order. The verdict does not depend on that order.
- Rule severities, the `rules` table and the parser preset only configure the external rule runner, which is not modelled.
- ProperIssueRefs: its own contract states only the case without a body region and the message. The verdict for a message with a body region is stated by the lemma `IssueRefsOfRegion`.
