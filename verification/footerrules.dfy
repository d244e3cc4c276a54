/**
 * The two rules of commitlint.config.ts about the footer: notes must come
 * after the body paragraphs (footer-notes-misplacement), and every
 * bracketed reference number of the body must be listed in a footer
 * reference line and vice versa (footer-references-existence).
 */
module FooterRules {
  import opened JsString
  import opened Collaborators
  import opened Classifiers
  import opened Segmenter

  // ------------------------------------------------ footer-notes-misplacement

  const MisplacementMessage := "Footer messages must be placed after body paragraphs, please move any message that starts with \"Fixes\", \"Closes\" or \"[i]\" to the end of the commmit message."

  /** A footer note is followed, somewhere later, by a non-empty line that is not one. */
  predicate NoteBeforeBodyLine(lines: seq<string>) {
    exists k, j :: 0 <= k < j < |lines| && IsFooterNote(lines[k]) && lines[j] != "" && !IsFooterNote(lines[j])
  }

  /**
   * footer-notes-misplacement: once a footer note has been seen, every
   * further non-empty line of the body must be a footer note too.
   */
  method FooterNotesMisplacement(h: Helpers, raw: string) returns (v: Verdict)
    ensures v.passed <==> !NoteBeforeBodyLine(BodyLines(raw))
    ensures v.message == MisplacementMessage + h.errMessageSuffix
  {
    var offence := false;
    var region := BodyOf(raw);
    if region.Some? {
      var bodyStr := Trim(region.value);
      if bodyStr != "" {
        var lines := SplitLines(bodyStr);
        offence := FindMisplacedNote(lines);
      }
    }
    v := Report(h, offence, MisplacementMessage);
  }

  /** The walk over the body lines, stopping at the first line out of place. */
  method FindMisplacedNote(lines: seq<string>) returns (offence: bool)
    ensures offence <==> NoteBeforeBodyLine(lines)
  {
    offence := false;
    var seenBody := false;
    var seenFooter := false;
    ghost var noteAt := 0;
    EmptyLineIsNoFooterNote();
    for i := 0 to |lines|
      invariant !seenFooter ==> forall k :: 0 <= k < i ==> !IsFooterNote(lines[k])
      invariant seenFooter ==> 0 <= noteAt < i && FirstNoteAt(lines, noteAt)
      invariant seenFooter ==> forall j :: noteAt < j < i ==> lines[j] == "" || IsFooterNote(lines[j])
    {
      var line := lines[i];
      if |line| == 0 {
        continue;
      }
      var isNote := IsFooterNote(line);
      seenBody := seenBody || !isNote;
      if isNote && !seenFooter {
        noteAt := i;
      }
      seenFooter := seenFooter || isNote;
      if seenFooter && !isNote {
        offence := true;
        assert noteAt < i;
        break;
      }
    }
    if !offence {
      NotesStayLast(lines, seenFooter, noteAt);
    }
  }

  /** `k` is the first footer note of `lines`. */
  predicate FirstNoteAt(lines: seq<string>, k: int) {
    0 <= k < |lines| && IsFooterNote(lines[k]) && forall i :: 0 <= i < k ==> !IsFooterNote(lines[i])
  }

  /** Nothing is misplaced when no note comes, or only notes and blank lines follow the first one. */
  lemma NotesStayLast(lines: seq<string>, seenFooter: bool, noteAt: int)
    requires !seenFooter ==> forall k :: 0 <= k < |lines| ==> !IsFooterNote(lines[k])
    requires seenFooter ==> FirstNoteAt(lines, noteAt)
    requires seenFooter ==> forall j :: noteAt < j < |lines| ==> lines[j] == "" || IsFooterNote(lines[j])
    ensures !NoteBeforeBodyLine(lines)
  {
  }

  /** Prose lines followed by footer notes only are well placed, blank lines anywhere. */
  lemma NotesAfterProseArePlaced(prose: seq<string>, notes: seq<string>)
    requires forall i :: 0 <= i < |prose| ==> !IsFooterNote(prose[i])
    requires forall i :: 0 <= i < |notes| ==> notes[i] == "" || IsFooterNote(notes[i])
    ensures !NoteBeforeBodyLine(prose + notes)
  {
    var lines := prose + notes;
    forall k, j | 0 <= k < j < |lines| && IsFooterNote(lines[k])
      ensures lines[j] == "" || IsFooterNote(lines[j])
    {
      assert k >= |prose| ==> lines[j] == notes[j - |prose|];
    }
  }

  /** A footer note written before a paragraph makes the rule fail. */
  lemma NoteBeforeProseFails(h: Helpers, header: string, note: string, prose: string)
    requires '\n' !in header && |header| > 0 && !IsWhitespace(header[0])
    requires '\n' !in note && |note| > 0 && !IsWhitespace(note[0]) && IsFooterNote(note)
    requires '\n' !in prose && |prose| > 0 && !IsWhitespace(prose[|prose| - 1]) && !IsFooterNote(prose)
    requires note[|note| - 1] != '\r'
    ensures NoteBeforeBodyLine(BodyLines(header + "\n\n" + (note + "\n" + prose)))
  {
    var body := note + "\n" + prose;
    assert body[0] == note[0] && body[|body| - 1] == prose[|prose| - 1];
    BodyLinesOfMessage(header, body);
    SplitLinesOfTwo(note, prose);
    NoteThenProse([note, prose]);
  }

  /** Two lines, a footer note and then prose, are misplaced. */
  lemma NoteThenProse(lines: seq<string>)
    requires |lines| == 2 && IsFooterNote(lines[0]) && lines[1] != "" && !IsFooterNote(lines[1])
    ensures NoteBeforeBodyLine(lines)
  {
  }

  /** Two lines joined by a line break split back into those two lines. */
  lemma SplitLinesOfTwo(a: string, b: string)
    requires '\n' !in a && '\n' !in b && (|a| == 0 || a[|a| - 1] != '\r')
    ensures SplitLines(a + "\n" + b) == [a, b]
  {
    var s := a + "\n" + b;
    assert s[..|a|] == a && s[|a|] == '\n' && s[|a| + 1..] == b;
    SplitLinesAt(s, |a|);
  }

  /** Splitting at the first line break: the first line, then the lines of the rest. */
  lemma SplitLinesAt(s: string, i: int)
    requires 0 <= i < |s| && s[i] == '\n' && '\n' !in s[..i]
    ensures SplitLines(s) == [DropCarriageReturn(s[..i])] + SplitLines(s[i + 1..])
  {
    assert forall j :: 0 <= j < i ==> s[..i][j] == s[j];
    assert LineBreak(s) == i;
  }

  // ---------------------------------------------- footer-references-existence

  const ReferencesMessage := "All references in the body must be mentioned in the footer, and vice versa."

  predicate AllDigits(s: string) {
    forall i :: 0 <= i < |s| ==> IsAsciiDigit(s[i])
  }

  /**
   * The matches of /(?<=\[)([0-9]+)(?=\])/g in a line: every non-empty run
   * of digits written directly between `[` and `]`. Two such runs never
   * overlap (each is preceded by `[`), so the leftmost-first global search
   * finds every one of them.
   */
  function RefsIn(line: string): set<string> {
    set p, e | 0 < p < e < |line| && line[p - 1] == '[' && line[e] == ']' && AllDigits(line[p..e]) :: line[p..e]
  }

  /**
   * The matches of a line are exactly the non-empty digit strings that
   * occur in it between brackets.
   */
  lemma RefsAreBracketedNumbers(line: string)
    ensures forall x :: x in RefsIn(line) <==> 0 < |x| && AllDigits(x) && Contains(line, "[" + x + "]")
  {
    forall x | x in RefsIn(line)
      ensures Contains(line, "[" + x + "]")
    {
      var p, e :| 0 < p < e < |line| && line[p - 1] == '[' && line[e] == ']' && AllDigits(line[p..e]) && x == line[p..e];
      Bracketed(line, x, p - 1);
    }
    forall x | 0 < |x| && AllDigits(x) && Contains(line, "[" + x + "]")
      ensures x in RefsIn(line)
    {
      var k :| 0 <= k <= |line| && OccursAt(line, "[" + x + "]", k);
      Bracketed(line, x, k);
      assert x == line[k + 1..k + 1 + |x|];
    }
  }

  /** `[x]` starts at `k` exactly when `x` sits between a `[` at `k` and a `]` after it. */
  lemma Bracketed(line: string, x: string, k: int)
    ensures OccursAt(line, "[" + x + "]", k) <==>
      0 <= k && k + |x| + 2 <= |line| && line[k] == '[' && line[k + 1 + |x|] == ']' && line[k + 1..k + 1 + |x|] == x
  {
    var b := "[" + x + "]";
    if 0 <= k && k + |x| + 2 <= |line| {
      var w := line[k..k + |x| + 2];
      assert w[0] == line[k] && w[|x| + 1] == line[k + 1 + |x|];
      var inner, within := w[1..|x| + 1], line[k + 1..k + 1 + |x|];
      forall i | 0 <= i < |x|
        ensures inner[i] == within[i]
      {
        assert w[1 + i] == line[k + 1 + i];
      }
      assert inner == within;
      assert b[0] == '[' && b[|x| + 1] == ']' && b[1..|x| + 1] == x;
      if w[0] == '[' && w[|x| + 1] == ']' && w[1..|x| + 1] == x {
        assert w == [w[0]] + w[1..|x| + 1] + [w[|x| + 1]];
      }
    }
  }

  /** Reference numbers listed by the footer reference lines among `lines`. */
  function ListedRefs(lines: seq<string>): set<string> {
    if lines == [] then {}
    else
      var line := lines[|lines| - 1];
      ListedRefs(lines[..|lines| - 1]) + (if IsFooterReference(line) then RefsIn(line) else {})
  }

  /** Reference numbers cited by the other lines among `lines`. */
  function CitedRefs(lines: seq<string>): set<string> {
    if lines == [] then {}
    else
      var line := lines[|lines| - 1];
      CitedRefs(lines[..|lines| - 1]) + (if IsFooterReference(line) then {} else RefsIn(line))
  }

  /** A number is listed exactly when some footer reference line holds it. */
  lemma {:induction false} ListedRefsHolds(lines: seq<string>, x: string)
    ensures x in ListedRefs(lines) <==> exists i :: 0 <= i < |lines| && IsFooterReference(lines[i]) && x in RefsIn(lines[i])
  {
    if lines != [] {
      var init := lines[..|lines| - 1];
      ListedRefsHolds(init, x);
      assert forall i :: 0 <= i < |init| ==> init[i] == lines[i];
    }
  }

  /** A number is cited exactly when some line that is not a footer reference holds it. */
  lemma {:induction false} CitedRefsHolds(lines: seq<string>, x: string)
    ensures x in CitedRefs(lines) <==> exists i :: 0 <= i < |lines| && !IsFooterReference(lines[i]) && x in RefsIn(lines[i])
  {
    if lines != [] {
      var init := lines[..|lines| - 1];
      CitedRefsHolds(init, x);
      assert forall i :: 0 <= i < |init| ==> init[i] == lines[i];
    }
  }

  /**
   * footer-references-existence: the numbers cited in the body and the
   * numbers listed in the footer are the same set.
   */
  method FooterReferencesExistence(h: Helpers, raw: string) returns (v: Verdict)
    ensures v.passed <==> CitedRefs(BodyLines(raw)) == ListedRefs(BodyLines(raw))
    ensures v.message == ReferencesMessage + h.errMessageSuffix
  {
    var offence := false;
    var region := BodyOf(raw);
    if region.Some? {
      var bodyStr := Trim(region.value);
      if bodyStr != "" {
        var lines := SplitLines(bodyStr);
        offence := RefsDisagree(lines);
      }
    }
    v := Report(h, offence, ReferencesMessage);
  }

  /** The body's numbers and the footer's numbers, collected and then compared both ways. */
  method RefsDisagree(lines: seq<string>) returns (offence: bool)
    ensures offence <==> CitedRefs(lines) != ListedRefs(lines)
  {
    var bodyReferences, references := CollectRefs(lines);
    var bodyListed := IsSubset(bodyReferences, references);
    var footerCited := IsSubset(references, bodyReferences);
    offence := !bodyListed || !footerCited;
  }

  /** The walk over the lines that sorts every match into the body's or the footer's set. */
  method CollectRefs(lines: seq<string>) returns (bodyReferences: set<string>, references: set<string>)
    ensures bodyReferences == CitedRefs(lines) && references == ListedRefs(lines)
  {
    bodyReferences, references := {}, {};
    for i := 0 to |lines|
      invariant bodyReferences == CitedRefs(lines[..i]) && references == ListedRefs(lines[..i])
    {
      var line := lines[i];
      RefsOfNextLine(lines, i);
      var matches := RefsIn(line);
      if matches == {} {
        continue;
      }
      if IsFooterReference(line) {
        references := AddAll(references, matches);
      } else {
        bodyReferences := AddAll(bodyReferences, matches);
      }
    }
    assert lines[..|lines|] == lines;
  }

  /** One more line adds its matches to the footer's or to the body's set. */
  lemma RefsOfNextLine(lines: seq<string>, i: int)
    requires 0 <= i < |lines|
    ensures ListedRefs(lines[..i + 1]) == ListedRefs(lines[..i]) + (if IsFooterReference(lines[i]) then RefsIn(lines[i]) else {})
    ensures CitedRefs(lines[..i + 1]) == CitedRefs(lines[..i]) + (if IsFooterReference(lines[i]) then {} else RefsIn(lines[i]))
  {
    assert lines[..i + 1][..i] == lines[..i];
  }

  /** The loop adding the matches of one line to a set, one at a time. */
  method AddAll(target: set<string>, matches: set<string>) returns (r: set<string>)
    ensures r == target + matches
  {
    r := target;
    var remaining := matches;
    while remaining != {}
      invariant remaining <= matches
      invariant r == target + (matches - remaining)
      decreases |remaining|
    {
      var m :| m in remaining;
      r := r + {m};
      remaining := remaining - {m};
    }
  }

  /** The loop that stops at the first member of `a` missing from `b`. */
  method IsSubset(a: set<string>, b: set<string>) returns (r: bool)
    ensures r <==> a <= b
  {
    var pending := a;
    while pending != {}
      invariant pending <= a && a - pending <= b
      decreases |pending|
    {
      var x :| x in pending;
      if x !in b {
        return false;
      }
      pending := pending - {x};
    }
    return true;
  }

  /** A number cited in the body but listed by no footer reference line makes the rule fail. */
  lemma UnlistedCitationFails(lines: seq<string>, i: int, x: string)
    requires 0 <= i < |lines| && !IsFooterReference(lines[i]) && x in RefsIn(lines[i])
    requires forall k :: 0 <= k < |lines| && IsFooterReference(lines[k]) ==> x !in RefsIn(lines[k])
    ensures CitedRefs(lines) != ListedRefs(lines)
  {
    CitedRefsHolds(lines, x);
    ListedRefsHolds(lines, x);
  }

  /** A number listed in the footer but cited nowhere in the body makes the rule fail. */
  lemma UncitedListingFails(lines: seq<string>, i: int, x: string)
    requires 0 <= i < |lines| && IsFooterReference(lines[i]) && x in RefsIn(lines[i])
    requires forall k :: 0 <= k < |lines| && !IsFooterReference(lines[k]) ==> x !in RefsIn(lines[k])
    ensures CitedRefs(lines) != ListedRefs(lines)
  {
    CitedRefsHolds(lines, x);
    ListedRefsHolds(lines, x);
  }

  /** A digit run written as `[n]` is a reference. */
  lemma BracketedNumberIsRef(pre: string, n: string, post: string)
    requires |n| > 0 && AllDigits(n)
    ensures n in RefsIn(pre + "[" + n + "]" + post)
  {
    var line := pre + "[" + n + "]" + post;
    var p := |pre| + 1;
    var e := p + |n|;
    assert line[p - 1] == '[' && line[e] == ']' && line[p..e] == n;
  }
}
