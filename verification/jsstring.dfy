/**
 * The JavaScript string operations the linter's rules are written with:
 * `indexOf`, `startsWith`, `trim`, `split` on a literal separator,
 * `split(/\r?\n/)` and `toLowerCase`. Strings are `seq<char>`.
 * `lastIndexOf` is not called by the rules; it serves here to describe
 * what the greedy code-block pattern removes.
 */
module JsString {

  /** `sub` occurs in `s` starting at index `i`. */
  predicate OccursAt(s: string, sub: string, i: int) {
    0 <= i && i + |sub| <= |s| && s[i..i + |sub|] == sub
  }

  predicate Contains(s: string, sub: string) {
    exists i :: 0 <= i <= |s| && OccursAt(s, sub, i)
  }

  predicate StartsWith(s: string, prefix: string) {
    |prefix| <= |s| && s[..|prefix|] == prefix
  }

  /** The first index at or after `from` where `sub` occurs, or -1. */
  function IndexFrom(s: string, sub: string, from: nat): (r: int)
    requires from <= |s|
    ensures -1 <= r <= |s|
    ensures r >= 0 ==> from <= r && OccursAt(s, sub, r)
    ensures forall i :: from <= i && (r < 0 || i < r) ==> !OccursAt(s, sub, i)
    decreases |s| - from
  {
    if |s| - from < |sub| then
      -1
    else if OccursAt(s, sub, from) then
      from
    else
      IndexFrom(s, sub, from + 1)
  }

  /** `String.prototype.indexOf`: the first index where `sub` occurs, or -1. */
  function IndexOf(s: string, sub: string): (r: int)
    ensures -1 <= r <= |s|
    ensures r == -1 <==> !Contains(s, sub)
    ensures r >= 0 ==> OccursAt(s, sub, r)
    ensures forall i :: 0 <= i < r ==> !OccursAt(s, sub, i)
  {
    IndexFrom(s, sub, 0)
  }

  /** The last index at or before `i` where `sub` occurs, or -1. */
  function LastIndexBefore(s: string, sub: string, i: int): (r: int)
    ensures r == -1 || 0 <= r <= i
    ensures r >= 0 ==> OccursAt(s, sub, r)
    ensures forall j :: r < j <= i ==> !OccursAt(s, sub, j)
    decreases i + 1
  {
    if i < 0 then
      -1
    else if OccursAt(s, sub, i) then
      i
    else
      LastIndexBefore(s, sub, i - 1)
  }

  /** `String.prototype.lastIndexOf`: the last index where `sub` occurs, or -1. */
  function LastIndexOf(s: string, sub: string): (r: int)
    ensures -1 <= r <= |s|
    ensures r == -1 <==> !Contains(s, sub)
    ensures r >= 0 ==> OccursAt(s, sub, r)
    ensures forall i :: r < i ==> !OccursAt(s, sub, i)
  {
    LastIndexBefore(s, sub, |s| - |sub|)
  }

  /** An occurrence with none before it is what `indexOf` finds. */
  lemma IndexOfIsFirst(s: string, sub: string, i: int)
    requires OccursAt(s, sub, i) && forall j :: 0 <= j < i ==> !OccursAt(s, sub, j)
    ensures IndexOf(s, sub) == i
  {
  }

  /** An occurrence with none after it is what `lastIndexOf` finds. */
  lemma LastIndexOfIsLast(s: string, sub: string, i: int)
    requires OccursAt(s, sub, i) && forall j :: i < j ==> !OccursAt(s, sub, j)
    ensures LastIndexOf(s, sub) == i
  {
  }

  /** `indexOf(p) == 0` is the same test as `startsWith(p)`. */
  lemma IndexOfZeroIsPrefix(s: string, prefix: string)
    ensures IndexOf(s, prefix) == 0 <==> StartsWith(s, prefix)
  {
    if StartsWith(s, prefix) {
      assert OccursAt(s, prefix, 0);
    }
  }

  /** Index `i` holds the first `c` of `s`. */
  predicate FirstAt(s: string, c: char, i: int) {
    0 <= i < |s| && s[i] == c && forall j :: 0 <= j < i ==> s[j] != c
  }

  /** There is only one first position of `c`. */
  lemma FirstAtUnique(s: string, c: char, i: int, j: int)
    requires FirstAt(s, c, i) && FirstAt(s, c, j)
    ensures i == j
  {
  }

  /** Before index `n`, the first `c` of `s[..n]` is the first `c` of `s`. */
  lemma FirstAtInPrefix(s: string, c: char, n: int)
    requires 0 <= n <= |s|
    ensures forall p :: 0 <= p < n ==> (FirstAt(s[..n], c, p) <==> FirstAt(s, c, p))
  {
    assert forall j :: 0 <= j < n ==> s[..n][j] == s[j];
  }

  /**
   * `indexOf` of a one-character string finds the first position holding
   * that character.
   */
  lemma IndexOfChar(s: string, c: char)
    ensures IndexOf(s, [c]) == -1 <==> c !in s
    ensures IndexOf(s, [c]) >= 0 ==> FirstAt(s, c, IndexOf(s, [c]))
    ensures forall i :: FirstAt(s, c, i) ==> IndexOf(s, [c]) == i
  {
    forall i | 0 <= i < |s|
      ensures OccursAt(s, [c], i) <==> s[i] == c
    {
      assert s[i..i + 1] == [s[i]];
    }
    var k := IndexOf(s, [c]);
    if k >= 0 {
      assert FirstAt(s, c, k);
      forall i | FirstAt(s, c, i)
        ensures i == k
      {
        assert !(i < k) && !(k < i);
      }
    }
  }

  /** The characters JavaScript's `trim` removes: WhiteSpace and LineTerminator. */
  predicate IsWhitespace(c: char) {
    c == '\t' || c == '\n' || c == '\U{000B}' || c == '\U{000C}' || c == '\r' || c == ' '
    || c == '\U{00A0}' || c == '\U{1680}' || ('\U{2000}' <= c <= '\U{200A}')
    || c == '\U{2028}' || c == '\U{2029}' || c == '\U{202F}' || c == '\U{205F}'
    || c == '\U{3000}' || c == '\U{FEFF}'
  }

  function TrimStart(s: string): (r: string)
    ensures |r| <= |s| && r == s[|s| - |r|..]
    ensures forall i :: 0 <= i < |s| - |r| ==> IsWhitespace(s[i])
    ensures |r| > 0 ==> !IsWhitespace(r[0])
    decreases |s|
  {
    if |s| > 0 && IsWhitespace(s[0]) then TrimStart(s[1..]) else s
  }

  function TrimEnd(s: string): (r: string)
    ensures |r| <= |s| && r == s[..|r|]
    ensures forall i :: |r| <= i < |s| ==> IsWhitespace(s[i])
    ensures |r| > 0 ==> !IsWhitespace(r[|r| - 1])
    decreases |s|
  {
    if |s| > 0 && IsWhitespace(s[|s| - 1]) then TrimEnd(s[..|s| - 1]) else s
  }

  /** `String.prototype.trim`: `s` without its leading and trailing whitespace. */
  function Trim(s: string): (r: string)
    ensures Contains(s, r)
    ensures |r| > 0 ==> !IsWhitespace(r[0]) && !IsWhitespace(r[|r| - 1])
    ensures r == [] <==> forall i :: 0 <= i < |s| ==> IsWhitespace(s[i])
    ensures exists a :: TrimmedAt(s, r, a)
  {
    var t := TrimStart(s);
    var r := TrimEnd(t);
    TrimmedFromBothEnds(s, t, r);
    r
  }

  /**
   * Cutting whitespace from the start of `s`, giving `t`, then from the end
   * of `t`, giving `r`, cuts only whitespace from either side of `s`.
   */
  lemma TrimmedFromBothEnds(s: string, t: string, r: string)
    requires |t| <= |s| && t == s[|s| - |t|..] && forall i :: 0 <= i < |s| - |t| ==> IsWhitespace(s[i])
    requires |r| <= |t| && r == t[..|r|] && forall i :: |r| <= i < |t| ==> IsWhitespace(t[i])
    requires |r| > 0 ==> !IsWhitespace(r[0])
    ensures TrimmedAt(s, r, |s| - |t|) && OccursAt(s, r, |s| - |t|)
    ensures r == [] <==> forall i :: 0 <= i < |s| ==> IsWhitespace(s[i])
  {
    var a := |s| - |t|;
    assert r == s[a..a + |r|];
    forall i | a + |r| <= i < |s|
      ensures IsWhitespace(s[i])
    {
      assert s[i] == t[i - a];
    }
    if |r| > 0 {
      assert s[a] == r[0];
    }
  }

  /** `r` is `s` from index `a` on, with only whitespace cut away before and after it. */
  predicate TrimmedAt(s: string, r: string, a: int) {
    0 <= a <= |s| - |r| && s[a..a + |r|] == r
    && (forall i :: 0 <= i < a ==> IsWhitespace(s[i]))
    && (forall i :: a + |r| <= i < |s| ==> IsWhitespace(s[i]))
  }

  /** A string with no whitespace at either end is its own trim. */
  lemma TrimOfTrimmed(s: string)
    requires |s| > 0 ==> !IsWhitespace(s[0]) && !IsWhitespace(s[|s| - 1])
    ensures Trim(s) == s
  {
  }

  /** Trimming twice is trimming once. */
  lemma TrimIdempotent(s: string)
    ensures Trim(Trim(s)) == Trim(s)
  {
    TrimOfTrimmed(Trim(s));
  }

  /** The pieces of `pieces` glued back together with `sep` between them. */
  function Join(pieces: seq<string>, sep: string): string {
    if |pieces| == 0 then ""
    else if |pieces| == 1 then pieces[0]
    else pieces[0] + sep + Join(pieces[1..], sep)
  }

  /**
   * `s.split(sep)` for a non-empty literal separator: cut at each occurrence
   * found scanning left to right, keeping empty pieces.
   */
  function Split(s: string, sep: string): (r: seq<string>)
    requires |sep| > 0
    ensures |r| >= 1
    ensures Join(r, sep) == s
    ensures forall k :: 0 <= k < |r| ==> !Contains(r[k], sep)
    ensures StartsWith(s, r[0])
    ensures IndexOf(s, sep) < 0 ==> r == [s]
    ensures IndexOf(s, sep) >= 0 ==> r[0] == s[..IndexOf(s, sep)]
    decreases |s|
  {
    var i := IndexOf(s, sep);
    if i < 0 then
      [s]
    else
      var rest := Split(s[i + |sep|..], sep);
      NoOccurrenceInPrefix(s, sep, i);
      JoinAfterCut(s, sep, i, rest);
      [s[..i]] + rest
  }

  /** Gluing the text before an occurrence to the pieces of the text after it gives back the text. */
  lemma JoinAfterCut(s: string, sep: string, i: int, rest: seq<string>)
    requires OccursAt(s, sep, i) && |rest| >= 1 && Join(rest, sep) == s[i + |sep|..]
    ensures ([s[..i]] + rest)[1..] == rest
    ensures Join([s[..i]] + rest, sep) == s
    ensures StartsWith(s, s[..i])
  {
    CutAround(s, sep, i);
    var r := [s[..i]] + rest;
    assert r[1..] == rest;
    assert Join(r, sep) == r[0] + sep + Join(rest, sep);
  }

  /** The text is what comes before an occurrence, the occurrence, and what follows it. */
  lemma CutAround(s: string, sep: string, i: int)
    requires OccursAt(s, sep, i)
    ensures s[..i] + sep + s[i + |sep|..] == s
  {
    assert s[i..] == sep + s[i + |sep|..];
    assert s[..i] + s[i..] == s;
  }

  /** Nothing before the first occurrence contains the separator. */
  lemma NoOccurrenceInPrefix(s: string, sep: string, i: int)
    requires 0 <= i <= |s| && forall j :: 0 <= j < i ==> !OccursAt(s, sep, j)
    requires |sep| > 0
    ensures !Contains(s[..i], sep)
  {
    forall j | 0 <= j <= i
      ensures !OccursAt(s[..i], sep, j)
    {
      if j + |sep| <= i {
        assert !OccursAt(s, sep, j);
        assert s[..i][j..j + |sep|] == s[j..j + |sep|];
      }
    }
  }

  /**
   * Where the last piece `split` yields begins: just after the last cut, or
   * 0 when the separator does not occur.
   */
  function LastCut(s: string, sep: string): (k: nat)
    requires |sep| > 0
    ensures k <= |s|
    decreases |s|
  {
    var i := IndexOf(s, sep);
    if i < 0 then 0 else i + |sep| + LastCut(s[i + |sep|..], sep)
  }

  /** The last cut is the end of an occurrence, and no occurrence starts there or later. */
  lemma LastCutIsLast(s: string, sep: string)
    requires |sep| > 0
    ensures forall j :: LastCut(s, sep) <= j ==> !OccursAt(s, sep, j)
    ensures LastCut(s, sep) > 0 ==> OccursAt(s, sep, LastCut(s, sep) - |sep|)
  {
    NothingAfterLastCut(s, sep);
    OccurrenceBeforeLastCut(s, sep);
  }

  /** No occurrence starts at the last cut or later. */
  lemma {:induction false} NothingAfterLastCut(s: string, sep: string)
    requires |sep| > 0
    ensures forall j :: LastCut(s, sep) <= j ==> !OccursAt(s, sep, j)
    decreases |s|
  {
    var i := IndexOf(s, sep);
    if i >= 0 {
      var from := i + |sep|;
      NothingAfterLastCut(s[from..], sep);
      LastCutUnfold(s, sep, i);
      NothingAfterShiftedCut(s, sep, from, LastCut(s[from..], sep), LastCut(s, sep));
    }
  }

  /** No occurrence in `s[from..]` from `k` on means none in `s` from `from + k` on. */
  lemma NothingAfterShiftedCut(s: string, sep: string, from: int, k: int, cut: int)
    requires 0 <= from <= |s| && 0 <= k && cut == from + k
    requires forall j :: k <= j ==> !OccursAt(s[from..], sep, j)
    ensures forall j :: cut <= j ==> !OccursAt(s, sep, j)
  {
    OccurrencesAfter(s, sep, from);
  }

  /** A last cut past the start ends an occurrence. */
  lemma {:induction false} OccurrenceBeforeLastCut(s: string, sep: string)
    requires |sep| > 0
    ensures LastCut(s, sep) > 0 ==> OccursAt(s, sep, LastCut(s, sep) - |sep|)
    decreases |s|
  {
    var i := IndexOf(s, sep);
    if i >= 0 {
      var from := i + |sep|;
      OccurrenceBeforeLastCut(s[from..], sep);
      LastCutUnfold(s, sep, i);
      OccurrenceBeforeShiftedCut(s, sep, i, LastCut(s[from..], sep), LastCut(s, sep));
    }
  }

  /**
   * After an occurrence at `i`, a cut `k` of the rest that ends an
   * occurrence there (or is 0) gives a cut `i + |sep| + k` of `s` that ends one.
   */
  lemma OccurrenceBeforeShiftedCut(s: string, sep: string, i: int, k: int, cut: int)
    requires OccursAt(s, sep, i) && 0 <= k && cut == i + |sep| + k
    requires k > 0 ==> OccursAt(s[i + |sep|..], sep, k - |sep|)
    ensures OccursAt(s, sep, cut - |sep|)
  {
    if k > 0 {
      OccursAfterCut(s, sep, i + |sep|, k - |sep|);
      assert cut - |sep| == i + |sep| + (k - |sep|);
    } else {
      assert cut - |sep| == i;
    }
  }

  /** An occurrence in `s[from..]` at `j` is an occurrence in `s` at `from + j`. */
  lemma OccursAfterCut(s: string, sep: string, from: int, j: int)
    requires 0 <= from <= |s| && OccursAt(s[from..], sep, j)
    ensures OccursAt(s, sep, from + j)
  {
    assert s[from..][j..j + |sep|] == s[from + j..from + j + |sep|];
  }

  /** The occurrences in `s[from..]` are those in `s` at `from` or later, shifted. */
  lemma OccurrencesAfter(s: string, sep: string, from: int)
    requires 0 <= from <= |s|
    ensures forall j :: from <= j ==> (OccursAt(s, sep, j) <==> OccursAt(s[from..], sep, j - from))
    ensures forall j :: 0 <= j ==> (OccursAt(s[from..], sep, j) <==> OccursAt(s, sep, from + j))
  {
    forall j | from <= j
      ensures OccursAt(s, sep, j) <==> OccursAt(s[from..], sep, j - from)
    {
      if j + |sep| <= |s| {
        assert s[from..][j - from..j - from + |sep|] == s[j..j + |sep|];
      }
    }
    forall j | 0 <= j
      ensures OccursAt(s[from..], sep, j) <==> OccursAt(s, sep, from + j)
    {
      assert OccursAt(s, sep, from + j) <==> OccursAt(s[from..], sep, (from + j) - from);
    }
  }

  /**
   * The last piece `split` yields: the text after the last cut, a suffix of
   * `s` that follows an occurrence of the separator when there is one and
   * holds none itself.
   */
  function LastPiece(s: string, sep: string): (r: string)
    requires |sep| > 0
    ensures |r| <= |s| && r == s[|s| - |r|..]
    ensures !Contains(r, sep)
    ensures !Contains(s, sep) ==> r == s
    ensures Contains(s, sep) ==> OccursAt(s, sep, |s| - |r| - |sep|)
  {
    var k := LastCut(s, sep);
    LastCutIsLast(s, sep);
    OccurrencesAfter(s, sep, k);
    s[k..]
  }

  /**
   * For a one-character separator, the last piece is the text after the
   * separator's last occurrence, or all of `s` when it does not occur.
   */
  lemma LastPieceOfChar(s: string, c: char)
    ensures c !in LastPiece(s, [c])
    ensures c !in s ==> LastPiece(s, [c]) == s
    ensures c in s ==> LastPiece(s, [c]) == s[LastIndexOf(s, [c]) + 1..]
  {
    var r := LastPiece(s, [c]);
    IndexOfChar(r, c);
    IndexOfChar(s, c);
    if c in s {
      var k := LastCut(s, [c]);
      LastCutIsLast(s, [c]);
      LastIndexOfIsLast(s, [c], k - 1);
    }
  }

  /** `LastPiece` is the last element of `split`. */
  lemma LastPieceOfSplit(s: string, sep: string)
    requires |sep| > 0
    ensures LastPiece(s, sep) == Split(s, sep)[|Split(s, sep)| - 1]
  {
    SplitLastFromCut(s, sep);
  }

  /** The last element of `split` is the text from the last cut on. */
  lemma {:induction false} SplitLastFromCut(s: string, sep: string)
    requires |sep| > 0
    ensures Split(s, sep)[|Split(s, sep)| - 1] == s[LastCut(s, sep)..]
    decreases |s|
  {
    var i := IndexOf(s, sep);
    if i >= 0 {
      var rest := s[i + |sep|..];
      SplitLastFromCut(rest, sep);
      SplitUnfold(s, sep);
      LastOfTail(Split(s, sep), Split(rest, sep));
      LastCutUnfold(s, sep, i);
      DropOfDrop(s, i + |sep|, LastCut(rest, sep));
    }
  }

  /** After the first cut, the last cut is found in the rest of the text. */
  lemma LastCutUnfold(s: string, sep: string, i: int)
    requires |sep| > 0 && i == IndexOf(s, sep) && 0 <= i <= |s| - |sep|
    ensures LastCut(s, sep) == i + |sep| + LastCut(s[i + |sep|..], sep)
  {
  }

  /** A sequence and its tail end with the same element. */
  lemma LastOfTail(a: seq<string>, b: seq<string>)
    requires |a| >= 2 && a[1..] == b
    ensures a[|a| - 1] == b[|b| - 1]
  {
  }

  /** Dropping `m` characters, then `k`, drops `m + k`. */
  lemma DropOfDrop(s: string, m: int, k: int)
    requires 0 <= m <= |s| && 0 <= k <= |s| - m
    ensures s[m..][k..] == s[m + k..]
  {
  }

  /** After the first cut, `split` goes on with the rest of the text. */
  lemma SplitUnfold(s: string, sep: string)
    requires |sep| > 0 && IndexOf(s, sep) >= 0
    ensures Split(s, sep)[1..] == Split(s[IndexOf(s, sep) + |sep|..], sep)
  {
  }

  /** `s.split(' ')[0]`: the text before the first space. */
  function FirstWord(s: string): (r: string)
    ensures StartsWith(s, r)
    ensures ' ' !in r
    ensures r == s || s[|r|] == ' '
  {
    BeforeFirstSpace(s);
    Split(s, " ")[0]
  }

  /** The text before the first space holds no space and is followed by one, if it is not all of `s`. */
  lemma BeforeFirstSpace(s: string)
    ensures var i := IndexOf(s, " ");
      var w := if i < 0 then s else s[..i];
      StartsWith(s, w) && ' ' !in w && (w == s || s[|w|] == ' ')
  {
    IndexOfChar(s, ' ');
    var i := IndexOf(s, " ");
    if i >= 0 {
      assert forall j :: 0 <= j < i ==> s[..i][j] == s[j];
    }
  }

  /** `x` without one trailing carriage return. */
  function DropCarriageReturn(x: string): (r: string)
    ensures StartsWith(x, r)
    ensures r == x || x == r + ['\r']
  {
    if |x| > 0 && x[|x| - 1] == '\r' then x[..|x| - 1] else x
  }

  /** The index of the first line break of `s`, or `|s|` when there is none. */
  function LineBreak(s: string): (i: nat)
    ensures i <= |s|
    ensures i < |s| ==> s[i] == '\n'
    ensures forall j :: 0 <= j < i ==> s[j] != '\n'
  {
    if s == [] || s[0] == '\n' then 0 else 1 + LineBreak(s[1..])
  }

  /** `s.split(/\r?\n/)`: the lines of `s`, each without its `\n` or `\r\n` break. */
  function SplitLines(s: string): (r: seq<string>)
    ensures |r| >= 1
    ensures forall k :: 0 <= k < |r| ==> '\n' !in r[k]
    ensures '\n' !in s ==> r == [s]
    ensures LineBreak(s) < |s| ==> r[0] == DropCarriageReturn(s[..LineBreak(s)])
    decreases |s|
  {
    var i := LineBreak(s);
    if i == |s| then
      [s]
    else
      var line := DropCarriageReturn(s[..i]);
      assert '\n' !in line by {
        assert forall j :: 0 <= j < |line| ==> line[j] == s[j];
      }
      [line] + SplitLines(s[i + 1..])
  }

  /**
   * `r` is `p` with one carriage return dropped from the end of every piece
   * but the last: the pieces of a text cut at `\n`, read as its lines.
   */
  predicate LinesOf(r: seq<string>, p: seq<string>) {
    |r| == |p| && |r| >= 1 && r[|r| - 1] == p[|p| - 1]
    && forall k :: 0 <= k < |r| - 1 ==> r[k] == DropCarriageReturn(p[k])
  }

  /**
   * Splitting at `/\r?\n/` is splitting at `\n` and then dropping a `\r`
   * that ended any piece followed by a break.
   */
  lemma {:induction false} SplitLinesAtBreaks(s: string)
    ensures LinesOf(SplitLines(s), Split(s, "\n"))
    decreases |s|
  {
    IndexOfChar(s, '\n');
    var i := LineBreak(s);
    if i < |s| {
      assert FirstAt(s, '\n', i);
      var rest := s[i + 1..];
      SplitLinesAtBreaks(rest);
      SplitUnfold(s, "\n");
      LinesCons(s[..i], SplitLines(rest), Split(rest, "\n"));
      assert Split(s, "\n") == [s[..i]] + Split(rest, "\n");
    }
  }

  /** One more piece in front, its carriage return dropped, keeps the relation. */
  lemma LinesCons(x: string, r: seq<string>, p: seq<string>)
    requires LinesOf(r, p)
    ensures LinesOf([DropCarriageReturn(x)] + r, [x] + p)
  {
    var r', p' := [DropCarriageReturn(x)] + r, [x] + p;
    forall k | 0 <= k < |r'| - 1
      ensures r'[k] == DropCarriageReturn(p'[k])
    {
      if k > 0 {
        assert r'[k] == r[k - 1] && p'[k] == p[k - 1];
      }
    }
  }

  predicate IsAsciiUpper(c: char) { 'A' <= c <= 'Z' }

  predicate IsAsciiLower(c: char) { 'a' <= c <= 'z' }

  predicate IsAsciiLetter(c: char) { IsAsciiUpper(c) || IsAsciiLower(c) }

  predicate IsAsciiDigit(c: char) { '0' <= c <= '9' }

  function LowerChar(c: char): (d: char)
    ensures !IsAsciiUpper(d)
    ensures IsAsciiUpper(c) ==> IsAsciiLower(d) && d as int == c as int + 32
    ensures !IsAsciiUpper(c) ==> d == c
  {
    if IsAsciiUpper(c) then (c as int + 32) as char else c
  }

  /** `toLowerCase` restricted to the ASCII letters. */
  function ToLowerCase(s: string): (r: string)
    ensures |r| == |s|
    ensures forall i :: 0 <= i < |s| ==> r[i] == LowerChar(s[i])
  {
    seq(|s|, i requires 0 <= i < |s| => LowerChar(s[i]))
  }

  /** The decimal digits of `n`, as `${n}` renders a non-negative integer. */
  function NatToString(n: nat): (r: string)
    ensures |r| > 0
    ensures forall i :: 0 <= i < |r| ==> IsAsciiDigit(r[i])
    ensures n < 10 <==> |r| == 1
    ensures DigitsValue(r) == n
    ensures r[0] == '0' ==> n == 0
  {
    var d := ['0' + (n % 10) as char];
    if n < 10 then
      d
    else
      var r := NatToString(n / 10) + d;
      assert r[..|r| - 1] == NatToString(n / 10);
      r
  }

  /** The number a run of decimal digits denotes. */
  function DigitsValue(d: string): nat
    requires forall i :: 0 <= i < |d| ==> IsAsciiDigit(d[i])
  {
    if d == [] then 0
    else
      var last := d[|d| - 1];
      assert IsAsciiDigit(last);
      DigitsValue(d[..|d| - 1]) * 10 + (last as int - '0' as int)
  }
}
