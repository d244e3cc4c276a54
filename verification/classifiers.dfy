/**
 * The classifiers of commitlint.config.ts (lines 14-72): footer-note
 * recognisers, the letter counters, the proper-noun and sentence-start
 * heuristics, the `#123` detector and the fenced-code-block remover.
 */
module Classifiers {
  import opened JsString
  import opened Collaborators

  /** A bracketed footer reference such as `[1] https://...`. */
  function IsFooterReference(line: string): (r: bool)
    ensures r <==> |line| > 0 && line[0] == '[' && exists k :: 0 < k <= |line| && OccursAt(line, "] ", k)
  {
    var i := IndexOf(line, "] ");
    assert i == 0 ==> line[0] == ']' by {
      if i == 0 { assert line[0] == line[0..2][0]; }
    }
    |line| > 0 && line[0] == '[' && i > 0
  }

  /** A `Fixes ...` or `Closes ...` sentence. */
  function IsFixesOrClosesSentence(line: string): (r: bool)
    ensures r <==> StartsWith(line, "Fixes ") || StartsWith(line, "Closes ")
  {
    IndexOfZeroIsPrefix(line, "Fixes ");
    IndexOfZeroIsPrefix(line, "Closes ");
    IndexOf(line, "Fixes ") == 0 || IndexOf(line, "Closes ") == 0
  }

  /** A `Co-authored-by: ` trailer. */
  function IsCoAuthoredByTag(line: string): (r: bool)
    ensures r <==> StartsWith(line, "Co-authored-by: ")
  {
    IndexOfZeroIsPrefix(line, "Co-authored-by: ");
    IndexOf(line, "Co-authored-by: ") == 0
  }

  /** Any of the three footer-note forms. */
  predicate IsFooterNote(line: string) {
    IsFooterReference(line) || IsCoAuthoredByTag(line) || IsFixesOrClosesSentence(line)
  }

  /** The three forms spelled out as prefixes and the bracket pattern. */
  lemma FooterNoteForms(line: string)
    ensures IsFooterNote(line) <==>
      (|line| > 0 && line[0] == '[' && exists k :: 0 < k <= |line| && OccursAt(line, "] ", k))
      || StartsWith(line, "Fixes ") || StartsWith(line, "Closes ")
      || StartsWith(line, "Co-authored-by: ")
  {
  }

  /** An empty line is never a footer note. */
  lemma EmptyLineIsNoFooterNote()
    ensures !IsFooterNote("")
  {
  }

  predicate SomeUpper(w: string) {
    exists i :: 0 <= i < |w| && IsAsciiUpper(w[i])
  }

  /** Exactly one of the characters of `w` is an ASCII capital. */
  predicate ExactlyOneUpper(w: string) {
    exists k :: 0 <= k < |w| && IsAsciiUpper(w[k]) && forall i :: 0 <= i < |w| && i != k ==> !IsAsciiUpper(w[i])
  }

  predicate AllLetters(w: string) {
    forall i :: 0 <= i < |w| ==> IsAsciiLetter(w[i])
  }

  /** `w.replace(/[A-Z]/g, '')`. */
  function StripUpper(w: string): (r: string)
    ensures |r| <= |w|
    ensures forall i :: 0 <= i < |r| ==> !IsAsciiUpper(r[i])
    ensures |r| == |w| <==> !SomeUpper(w)
    decreases |w|
  {
    if w == [] then []
    else
      var rest := StripUpper(w[1..]);
      assert SomeUpper(w) <==> IsAsciiUpper(w[0]) || SomeUpper(w[1..]) by {
        if SomeUpper(w[1..]) {
          var i :| 0 <= i < |w[1..]| && IsAsciiUpper(w[1..][i]);
          assert IsAsciiUpper(w[i + 1]);
        }
        if SomeUpper(w) && !IsAsciiUpper(w[0]) {
          var i :| 0 <= i < |w| && IsAsciiUpper(w[i]);
          assert IsAsciiUpper(w[1..][i - 1]);
        }
      }
      (if IsAsciiUpper(w[0]) then [] else [w[0]]) + rest
  }

  /** `w.replace(/[^a-zA-Z]/g, '')`. */
  function KeepLetters(w: string): (r: string)
    ensures |r| <= |w|
    ensures forall i :: 0 <= i < |r| ==> IsAsciiLetter(r[i])
    ensures |r| == |w| <==> AllLetters(w)
    decreases |w|
  {
    if w == [] then []
    else
      var rest := KeepLetters(w[1..]);
      assert AllLetters(w) <==> IsAsciiLetter(w[0]) && AllLetters(w[1..]) by {
        if IsAsciiLetter(w[0]) && AllLetters(w[1..]) {
          forall i | 0 < i < |w| ensures IsAsciiLetter(w[i]) {
            assert w[i] == w[1..][i - 1];
          }
        }
      }
      (if IsAsciiLetter(w[0]) then [w[0]] else []) + rest
  }

  /** `numUpperCaseLetters`: how many ASCII capitals `word` holds. */
  function NumUpperCaseLetters(word: string): (r: nat)
    ensures r == CountUpper(word)
    ensures r == 0 <==> !SomeUpper(word)
    ensures r == 1 <==> ExactlyOneUpper(word)
  {
    OneUpper(word);
    StripUpperCount(word);
    |word| - |StripUpper(word)|
  }

  /** `numNonAlphabeticalCharacters`: how many characters of `word` are not ASCII letters. */
  function NumNonAlphabeticalCharacters(word: string): (r: nat)
    ensures r == CountNonLetters(word)
    ensures r == 0 <==> AllLetters(word)
  {
    KeepLettersCount(word);
    |word| - |KeepLetters(word)|
  }

  /** The positions of `w` that hold an ASCII capital. */
  function UpperPositions(w: string): set<nat> {
    set i: nat | i < |w| && IsAsciiUpper(w[i])
  }

  /** How many characters of `w` are ASCII capitals, counted position by position. */
  function CountUpper(w: string): nat {
    |UpperPositions(w)|
  }

  /** The positions of `w` that hold anything but an ASCII letter. */
  function NonLetterPositions(w: string): set<nat> {
    set i: nat | i < |w| && !IsAsciiLetter(w[i])
  }

  /** How many characters of `w` are not ASCII letters, counted position by position. */
  function CountNonLetters(w: string): nat {
    |NonLetterPositions(w)|
  }

  /** Removing the capitals drops exactly one character per capital. */
  lemma {:induction false} StripUpperCount(w: string)
    ensures |StripUpper(w)| == |w| - CountUpper(w)
    decreases |w|
  {
    if w == [] {
      assert UpperPositions(w) == {};
    } else {
      var v, c := w[..|w| - 1], w[|w| - 1];
      assert w == v + [c];
      StripUpperCount(v);
      StripUpperSnoc(v, c);
      CountUpperSnoc(v, c);
    }
  }

  /** Appending a character shortens the stripped word only when it is a capital. */
  lemma StripUpperSnoc(v: string, c: char)
    ensures |StripUpper(v + [c])| == |StripUpper(v)| + if IsAsciiUpper(c) then 0 else 1
  {
    StripUpperAppend(v, [c]);
    assert [c][1..] == [];
  }

  /** Appending a character adds one capital exactly when it is one. */
  lemma CountUpperSnoc(v: string, c: char)
    ensures CountUpper(v + [c]) == CountUpper(v) + if IsAsciiUpper(c) then 1 else 0
  {
    var w := v + [c];
    assert UpperPositions(w) == UpperPositions(v) + (if IsAsciiUpper(c) then {|v|} else {}) by {
      forall i: nat | i < |v| ensures w[i] == v[i] { }
    }
    assert |v| !in UpperPositions(v);
  }

  /** Removing the non-letters drops exactly one character per non-letter. */
  lemma {:induction false} KeepLettersCount(w: string)
    ensures |KeepLetters(w)| == |w| - CountNonLetters(w)
    decreases |w|
  {
    if w == [] {
      assert NonLetterPositions(w) == {};
    } else {
      var v, c := w[..|w| - 1], w[|w| - 1];
      assert w == v + [c];
      KeepLettersCount(v);
      KeepLettersSnoc(v, c);
      CountNonLettersSnoc(v, c);
    }
  }

  /** Appending a character lengthens the kept letters only when it is a letter. */
  lemma KeepLettersSnoc(v: string, c: char)
    ensures |KeepLetters(v + [c])| == |KeepLetters(v)| + if IsAsciiLetter(c) then 1 else 0
  {
    KeepLettersAppend(v, [c]);
    assert [c][1..] == [];
  }

  /** Appending a character adds one non-letter exactly when it is one. */
  lemma CountNonLettersSnoc(v: string, c: char)
    ensures CountNonLetters(v + [c]) == CountNonLetters(v) + if IsAsciiLetter(c) then 0 else 1
  {
    var w := v + [c];
    assert NonLetterPositions(w) == NonLetterPositions(v) + (if IsAsciiLetter(c) then {} else {|v|}) by {
      forall i: nat | i < |v| ensures w[i] == v[i] { }
    }
    assert |v| !in NonLetterPositions(v);
  }

  /** Removing the capitals works piece by piece. */
  lemma {:induction false} StripUpperAppend(a: string, b: string)
    ensures StripUpper(a + b) == StripUpper(a) + StripUpper(b)
    decreases |a|
  {
    if a == [] {
      assert a + b == b;
    } else {
      assert (a + b)[0] == a[0] && (a + b)[1..] == a[1..] + b;
      StripUpperAppend(a[1..], b);
    }
  }

  /** Keeping the letters works piece by piece. */
  lemma {:induction false} KeepLettersAppend(a: string, b: string)
    ensures KeepLetters(a + b) == KeepLetters(a) + KeepLetters(b)
    decreases |a|
  {
    if a == [] {
      assert a + b == b;
    } else {
      assert (a + b)[0] == a[0] && (a + b)[1..] == a[1..] + b;
      KeepLettersAppend(a[1..], b);
    }
  }

  /** `r` is what is left of `w` after deleting some of its characters. */
  predicate IsSubsequence(r: string, w: string)
    decreases |w|
  {
    r == []
    || (w != [] && ((r[0] == w[0] && IsSubsequence(r[1..], w[1..])) || IsSubsequence(r, w[1..])))
  }

  /** Removing the capitals only deletes characters; the rest keep their order. */
  lemma {:induction false} StripUpperInOrder(w: string)
    ensures IsSubsequence(StripUpper(w), w)
    decreases |w|
  {
    if w != [] {
      StripUpperInOrder(w[1..]);
      var r := StripUpper(w);
      if !IsAsciiUpper(w[0]) {
        assert r[0] == w[0] && r[1..] == StripUpper(w[1..]);
      } else {
        assert r == StripUpper(w[1..]);
      }
    }
  }

  /** Keeping the letters only deletes characters; the letters keep their order. */
  lemma {:induction false} KeepLettersInOrder(w: string)
    ensures IsSubsequence(KeepLetters(w), w)
    decreases |w|
  {
    if w != [] {
      KeepLettersInOrder(w[1..]);
      var r := KeepLetters(w);
      if IsAsciiLetter(w[0]) {
        assert r[0] == w[0] && r[1..] == KeepLetters(w[1..]);
      } else {
        assert r == KeepLetters(w[1..]);
      }
    }
  }

  /** Removing the capitals keeps every other character as often as it occurs. */
  lemma {:induction false} StripUpperKeepsTheRest(w: string)
    ensures forall c :: multiset(StripUpper(w))[c] == if IsAsciiUpper(c) then 0 else multiset(w)[c]
    decreases |w|
  {
    if w != [] {
      StripUpperKeepsTheRest(w[1..]);
      assert w == [w[0]] + w[1..];
    }
  }

  /** Keeping the letters keeps every letter as often as it occurs, and nothing else. */
  lemma {:induction false} KeepLettersKeepsLetters(w: string)
    ensures forall c :: multiset(KeepLetters(w))[c] == if IsAsciiLetter(c) then multiset(w)[c] else 0
    decreases |w|
  {
    if w != [] {
      KeepLettersKeepsLetters(w[1..]);
      assert w == [w[0]] + w[1..];
    }
  }

  /** Removing the capitals shortens the word by one exactly when it has one capital. */
  lemma {:induction false} OneUpper(w: string)
    ensures |StripUpper(w)| == |w| - 1 <==> ExactlyOneUpper(w)
    decreases |w|
  {
    if w != [] {
      OneUpper(w[1..]);
      if IsAsciiUpper(w[0]) {
        OneUpperAtHead(w);
      } else {
        OneUpperInTail(w);
      }
    }
  }

  /** After a leading capital, the word has one capital exactly when the rest has none. */
  lemma OneUpperAtHead(w: string)
    requires |w| > 0 && IsAsciiUpper(w[0])
    ensures ExactlyOneUpper(w) <==> !SomeUpper(w[1..])
  {
    var t := w[1..];
    if ExactlyOneUpper(w) {
      var k :| 0 <= k < |w| && IsAsciiUpper(w[k]) && forall i :: 0 <= i < |w| && i != k ==> !IsAsciiUpper(w[i]);
      assert k == 0;
      forall i | 0 <= i < |t| ensures !IsAsciiUpper(t[i]) {
        assert t[i] == w[i + 1];
      }
    }
    if !SomeUpper(t) {
      forall i | 0 <= i < |w| && i != 0 ensures !IsAsciiUpper(w[i]) {
        assert w[i] == t[i - 1];
      }
      assert ExactlyOneUpper(w);
    }
  }

  /** After a leading non-capital, the word has one capital exactly when the rest has one. */
  lemma OneUpperInTail(w: string)
    requires |w| > 0 && !IsAsciiUpper(w[0])
    ensures ExactlyOneUpper(w) <==> ExactlyOneUpper(w[1..])
  {
    var t := w[1..];
    if ExactlyOneUpper(w) {
      var k :| 0 <= k < |w| && IsAsciiUpper(w[k]) && forall i :: 0 <= i < |w| && i != k ==> !IsAsciiUpper(w[i]);
      forall i | 0 <= i < |t| && i != k - 1 ensures !IsAsciiUpper(t[i]) {
        assert t[i] == w[i + 1];
      }
      assert IsAsciiUpper(t[k - 1]);
      assert ExactlyOneUpper(t);
    }
    if ExactlyOneUpper(t) {
      var k :| 0 <= k < |t| && IsAsciiUpper(t[k]) && forall i :: 0 <= i < |t| && i != k ==> !IsAsciiUpper(t[i]);
      forall i | 0 <= i < |w| && i != k + 1 ensures !IsAsciiUpper(w[i]) {
        if i > 0 { assert w[i] == t[i - 1]; }
      }
      assert IsAsciiUpper(w[k + 1]);
      assert ExactlyOneUpper(w);
    }
  }

  /** `word[0]` as the source passes it to the case tests. */
  function FirstChar(word: string): string {
    if |word| > 0 then [word[0]] else ""
  }

  /**
   * `isProperNoun`: a word with a non-letter in it, a capitalised word with
   * another capital further on, or a lower-case word with a capital in it.
   */
  function IsProperNoun(h: Helpers, word: string): (r: bool)
    ensures r <==>
      !AllLetters(word)
      || (h.isUpperCase(FirstChar(word)) && SomeUpper(word) && !ExactlyOneUpper(word))
      || (h.isLowerCase(FirstChar(word)) && SomeUpper(word))
  {
    var numUpperCase := NumUpperCaseLetters(word);
    var numNonAlphabeticalChars := NumNonAlphabeticalCharacters(word);
    numNonAlphabeticalChars > 0
    || (h.isUpperCase(FirstChar(word)) && numUpperCase > 1)
    || (h.isLowerCase(FirstChar(word)) && numUpperCase > 0)
  }

  /** `wordIsStartOfSentence`: a capitalised word of letters with no other capital. */
  function WordIsStartOfSentence(h: Helpers, word: string): (r: bool)
    ensures r <==> h.isUpperCase(FirstChar(word)) && ExactlyOneUpper(word) && AllLetters(word)
  {
    if h.isUpperCase(FirstChar(word)) then
      var numUpperCase := NumUpperCaseLetters(word);
      var numNonAlphabeticalChars := NumNonAlphabeticalCharacters(word);
      numUpperCase == 1 && numNonAlphabeticalChars == 0
    else
      false
  }

  /**
   * When the case tests never agree, a word that starts a sentence is not
   * taken for a proper noun.
   */
  lemma SentenceStartIsNotProperNoun(h: Helpers, word: string)
    requires CaseTestsExclusive(h)
    requires WordIsStartOfSentence(h, word)
    ensures !IsProperNoun(h, word)
  {
    assert !(h.isUpperCase(FirstChar(word)) && h.isLowerCase(FirstChar(word)));
  }

  /** A plain lower-case word is neither a sentence start nor a proper noun. */
  lemma LowerCaseWordIsPlain(h: Helpers, word: string)
    requires CaseTestsExclusive(h)
    requires h.isLowerCase(FirstChar(word))
    requires forall i :: 0 <= i < |word| ==> IsAsciiLower(word[i])
    ensures !WordIsStartOfSentence(h, word) && !IsProperNoun(h, word)
  {
    assert !h.isUpperCase(FirstChar(word));
    assert !SomeUpper(word);
  }

  /** `includesHashtagRef`: the text has a `#` directly followed by a digit. */
  function IncludesHashtagRef(text: string): (r: bool)
    ensures r <==> exists i :: 0 <= i < |text| - 1 && text[i] == '#' && IsAsciiDigit(text[i + 1])
    decreases |text|
  {
    if |text| < 2 then
      false
    else if text[0] == '#' && IsAsciiDigit(text[1]) then
      true
    else
      var rest := IncludesHashtagRef(text[1..]);
      assert rest ==> exists i :: 0 <= i < |text| - 1 && text[i] == '#' && IsAsciiDigit(text[i + 1]) by {
        if rest {
          var i :| 0 <= i < |text[1..]| - 1 && text[1..][i] == '#' && IsAsciiDigit(text[1..][i + 1]);
          assert text[i + 1] == '#' && IsAsciiDigit(text[i + 2]);
        }
      }
      assert (exists i :: 0 <= i < |text| - 1 && text[i] == '#' && IsAsciiDigit(text[i + 1])) ==> rest by {
        if exists i :: 0 <= i < |text| - 1 && text[i] == '#' && IsAsciiDigit(text[i + 1]) {
          var i :| 0 <= i < |text| - 1 && text[i] == '#' && IsAsciiDigit(text[i + 1]);
          assert i > 0;
          assert text[1..][i - 1] == '#' && IsAsciiDigit(text[1..][i]);
        }
      }
      rest
  }

  /** The fence that opens and closes a code block. */
  const Fence: string := "```"

  /** Two fences, the second starting after the first ends. */
  predicate HasFencedBlock(s: string) {
    exists i, j :: 0 <= i && i + 3 <= j <= |s| && OccursAt(s, Fence, i) && OccursAt(s, Fence, j)
  }

  /**
   * `removeAllCodeBlocks`: the greedy pattern /```[^]*```/g deletes
   * everything from the first fence to the end of the last fence, when the
   * last starts after the first ends; otherwise the text is unchanged.
   */
  function RemoveAllCodeBlocks(text: string): (r: string)
    ensures !HasFencedBlock(text) ==> r == text
    ensures HasFencedBlock(text) ==>
      r == text[..IndexOf(text, Fence)] + text[LastIndexOf(text, Fence) + 3..] && !Contains(r, Fence)
    ensures !HasFencedBlock(r)
  {
    var open := IndexOf(text, Fence);
    var close := LastIndexOf(text, Fence);
    FencedBlockByEnds(text);
    if open >= 0 && close >= open + 3 then
      var r := text[..open] + text[close + 3..];
      NoFenceAfterRemoval(text, open, close);
      r
    else
      text
  }

  /** A code block exists exactly when the last fence starts after the first one ends. */
  lemma FencedBlockByEnds(text: string)
    ensures HasFencedBlock(text) <==> IndexOf(text, Fence) >= 0 && LastIndexOf(text, Fence) >= IndexOf(text, Fence) + 3
  {
    var open := IndexOf(text, Fence);
    var close := LastIndexOf(text, Fence);
    if HasFencedBlock(text) {
      var i, j :| 0 <= i && i + 3 <= j <= |text| && OccursAt(text, Fence, i) && OccursAt(text, Fence, j);
      assert open <= i && j <= close;
    }
    if open >= 0 && close >= open + 3 {
      assert OccursAt(text, Fence, open) && OccursAt(text, Fence, close);
    }
  }

  /**
   * Once the first fence through the last is cut out, no fence is left:
   * the character before the cut is not a backtick, so no fence spans it.
   */
  lemma NoFenceAfterRemoval(text: string, open: int, close: int)
    requires 0 <= open && open + 3 <= close && close + 3 <= |text|
    requires OccursAt(text, Fence, open)
    requires forall i :: 0 <= i < open ==> !OccursAt(text, Fence, i)
    requires forall i :: close < i ==> !OccursAt(text, Fence, i)
    ensures !Contains(text[..open] + text[close + 3..], Fence)
  {
    var r := text[..open] + text[close + 3..];
    if open > 0 {
      assert text[open..open + 3][0] == text[open] && text[open..open + 3][1] == text[open + 1];
      assert !OccursAt(text, Fence, open - 1);
      assert text[open - 1] != '`';
    }
    forall x | 0 <= x <= |r|
      ensures !OccursAt(r, Fence, x)
    {
      if x + 3 <= |r| {
        if x + 3 <= open {
          assert !OccursAt(text, Fence, x);
          NoFenceLeftOfCut(text, open, close, x);
        } else if x >= open {
          assert !OccursAt(text, Fence, x - open + close + 3);
          NoFenceRightOfCut(text, open, close, x);
        } else {
          NoFenceAcrossCut(text, open, close, x);
        }
      }
    }
  }

  /** A window wholly before the cut is a window of the text. */
  lemma NoFenceLeftOfCut(text: string, open: int, close: int, x: int)
    requires 0 <= x && x + 3 <= open <= close && close + 3 <= |text|
    requires !OccursAt(text, Fence, x)
    ensures !OccursAt(text[..open] + text[close + 3..], Fence, x)
  {
    WindowOfLeft(text[..open], text[close + 3..], x);
    assert text[..open][x..x + 3] == text[x..x + 3];
  }

  /** A window wholly after the cut is a window of the text past the last fence. */
  lemma NoFenceRightOfCut(text: string, open: int, close: int, x: int)
    requires 0 <= open <= x && open <= close && close + 3 <= |text| && x + 3 <= open + |text| - close - 3
    requires !OccursAt(text, Fence, x - open + close + 3)
    ensures !OccursAt(text[..open] + text[close + 3..], Fence, x)
  {
    WindowOfRight(text[..open], text, close + 3, x);
  }

  /** A window across the cut holds the character before the first fence, no backtick. */
  lemma NoFenceAcrossCut(text: string, open: int, close: int, x: int)
    requires 0 <= x < open < x + 3 && open <= close && close + 3 <= |text|
    requires x + 3 <= open + |text| - close - 3
    requires text[open - 1] != '`'
    ensures !OccursAt(text[..open] + text[close + 3..], Fence, x)
  {
    var r := text[..open] + text[close + 3..];
    assert r[open - 1] == text[open - 1];
    WindowHasNonBacktick(r, x, open - 1);
  }

  lemma WindowOfLeft(a: string, b: string, x: int)
    requires 0 <= x && x + 3 <= |a|
    ensures (a + b)[x..x + 3] == a[x..x + 3]
  {
  }

  lemma WindowOfRight(a: string, text: string, from: int, x: int)
    requires 0 <= from <= |text| && |a| <= x && x + 3 <= |a| + |text| - from
    ensures (a + text[from..])[x..x + 3] == text[x - |a| + from..x - |a| + from + 3]
  {
  }

  /** A window holding a character other than a backtick is not a fence. */
  lemma WindowHasNonBacktick(r: string, x: int, k: int)
    requires 0 <= x <= k < x + 3 <= |r| && r[k] != '`'
    ensures !OccursAt(r, Fence, x)
  {
    assert r[x..x + 3][k - x] == r[k];
  }

  /** Text without a backtick holds no code block and is left as it is. */
  lemma NoBacktickNothingRemoved(text: string)
    requires '`' !in text
    ensures RemoveAllCodeBlocks(text) == text
  {
    forall i | 0 <= i && i + 3 <= |text|
      ensures !OccursAt(text, Fence, i)
    {
      assert text[i..i + 3][0] == text[i];
    }
  }

  /** Removing code blocks a second time changes nothing. */
  lemma RemoveAllCodeBlocksIdempotent(text: string)
    ensures RemoveAllCodeBlocks(RemoveAllCodeBlocks(text)) == RemoveAllCodeBlocks(text)
  {
  }

  /**
   * A code block between backtick-free text is removed with its fences,
   * leaving the text around it.
   */
  lemma RemovesCodeBlock(pre: string, code: string, post: string)
    requires '`' !in pre && '`' !in post
    ensures RemoveAllCodeBlocks(pre + Fence + code + Fence + post) == pre + post
  {
    var text := pre + Fence + code + Fence + post;
    var open, close := |pre|, |pre| + 3 + |code|;
    FencesAroundCode(pre, code, post);
    forall x | 0 <= x < open
      ensures !OccursAt(text, Fence, x)
    {
      assert text[x] == pre[x];
      WindowHasNonBacktick(text, x, x);
    }
    forall x | close < x
      ensures !OccursAt(text, Fence, x)
    {
      if x + 3 <= |text| {
        assert text[x + 2] == post[x + 2 - close - 3];
        WindowHasNonBacktick(text, x, x + 2);
      }
    }
    IndexOfIsFirst(text, Fence, open);
    LastIndexOfIsLast(text, Fence, close);
  }

  /** Where the two fences and the text around them sit in `pre` ``` `code` ``` `post`. */
  lemma FencesAroundCode(pre: string, code: string, post: string)
    ensures var text := pre + Fence + code + Fence + post;
      var close := |pre| + 3 + |code|;
      OccursAt(text, Fence, |pre|) && OccursAt(text, Fence, close)
      && text[..|pre|] == pre && text[close + 3..] == post
      && (forall x :: 0 <= x < |pre| ==> text[x] == pre[x])
      && (forall x :: close + 3 <= x < |text| ==> text[x] == post[x - close - 3])
  {
    var text := pre + Fence + code + Fence + post;
    var close := |pre| + 3 + |code|;
    assert text[|pre|..|pre| + 3] == Fence;
    assert text[close..close + 3] == Fence;
  }
}
