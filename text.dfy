/**
 * The Python string primitives the scoring engine is built from, on ASCII text:
 * `str.lower`, `str.isupper`, `str.split()` (whitespace runs), `str.strip()`,
 * `str.split(sep)`, `sep.join(parts)`, `str.splitlines()` (on '\n'), substring
 * search, and the regular-expression word boundary `\b` used by every
 * whole-word keyword search (`re.search(r"\b" + re.escape(kw) + r"\b", text)`).
 */
module Text {

  /** `str.isspace` on ASCII: space, \t \n \v \f \r and the separators 0x1c-0x1f. */
  predicate IsSpace(c: char) {
    c == ' ' || (9 <= c as int <= 13) || (28 <= c as int <= 31)
  }

  predicate IsUpper(c: char) { 'A' <= c <= 'Z' }

  predicate IsLowerLetter(c: char) { 'a' <= c <= 'z' }

  predicate IsDigit(c: char) { '0' <= c <= '9' }

  /** The class `[a-zA-Z0-9]`. */
  predicate IsAlnum(c: char) { IsUpper(c) || IsLowerLetter(c) || IsDigit(c) }

  /** The regex class `\w` on ASCII: `[A-Za-z0-9_]`. */
  predicate IsWordChar(c: char) { IsAlnum(c) || c == '_' }

  function LowerChar(c: char): char {
    if IsUpper(c) then (c as int + 32) as char else c
  }

  /** `str.lower()`: maps A-Z to a-z and leaves every other character alone. */
  function Lower(s: string): (r: string)
    ensures |r| == |s|
    ensures forall i :: 0 <= i < |s| ==> !IsUpper(r[i])
    ensures forall i :: 0 <= i < |s| && IsUpper(s[i]) ==> r[i] as int == s[i] as int + 32
    ensures forall i :: 0 <= i < |s| && !IsUpper(s[i]) ==> r[i] == s[i]
  {
    seq(|s|, i requires 0 <= i < |s| => LowerChar(s[i]))
  }

  lemma LowerAppend(a: string, b: string)
    ensures Lower(a + b) == Lower(a) + Lower(b)
  {
    assert forall i :: 0 <= i < |a + b| ==> Lower(a + b)[i] == (Lower(a) + Lower(b))[i];
  }

  /** Lowering text that has no upper-case letter changes nothing. */
  lemma LowerNoUpper(s: string)
    requires forall i :: 0 <= i < |s| ==> !IsUpper(s[i])
    ensures Lower(s) == s
  {
  }

  /** Number of upper-case characters: `sum(1 for char in word if char.isupper())`. */
  function CountUpper(s: string): (n: nat)
    ensures n <= |s|
    ensures n == 0 <==> forall i :: 0 <= i < |s| ==> !IsUpper(s[i])
    ensures |s| == 1 ==> n == (if IsUpper(s[0]) then 1 else 0)
  {
    if s == [] then 0 else (if IsUpper(s[0]) then 1 else 0) + CountUpper(s[1..])
  }

  /** The count of a concatenation is the sum of the counts: one per upper-case character. */
  lemma {:induction false} CountUpperAppend(a: string, b: string)
    ensures CountUpper(a + b) == CountUpper(a) + CountUpper(b)
    decreases |a|
  {
    if a == [] {
      assert a + b == b;
    } else {
      assert (a + b)[1..] == a[1..] + b;
      CountUpperAppend(a[1..], b);
    }
  }

  // ---------------------------------------------------------------------------
  // str.split() with no argument

  /** Length of the leading run of non-whitespace characters of `s`. */
  function WordLength(s: string): (n: nat)
    ensures n <= |s|
    ensures forall i :: 0 <= i < n ==> !IsSpace(s[i])
    ensures n < |s| ==> IsSpace(s[n])
  {
    if s == [] || IsSpace(s[0]) then 0 else 1 + WordLength(s[1..])
  }

  /** A piece that `str.split()` can return: non-empty and free of whitespace. */
  predicate IsWord(w: string) {
    |w| > 0 && forall i :: 0 <= i < |w| ==> !IsSpace(w[i])
  }

  /** `str.split()`: the maximal runs of non-whitespace characters, in order. */
  function Words(s: string): (ws: seq<string>)
    ensures forall k :: 0 <= k < |ws| ==> IsWord(ws[k])
    decreases |s|
  {
    if s == [] then []
    else if IsSpace(s[0]) then Words(s[1..])
    else
      var n := WordLength(s);
      [s[..n]] + Words(s[n..])
  }

  /** A text made only of whitespace splits into no words. */
  lemma {:induction false} WordsOfBlank(s: string)
    requires forall i :: 0 <= i < |s| ==> IsSpace(s[i])
    ensures Words(s) == []
    decreases |s|
  {
    if s != [] {
      WordsOfBlank(s[1..]);
    }
  }

  /** A whitespace character separates: the words of `a + [c] + b` are those of `a` then `b`. */
  lemma {:induction false} WordsAppend(a: string, c: char, b: string)
    requires IsSpace(c)
    ensures Words(a + [c] + b) == Words(a) + Words(b)
    decreases |a|
  {
    var s := a + [c] + b;
    if a == [] {
      assert s[1..] == b;
    } else if IsSpace(a[0]) {
      assert s[1..] == a[1..] + [c] + b;
      WordsAppend(a[1..], c, b);
    } else {
      var n := WordLength(a);
      WordLengthPrefix(a, [c] + b);
      assert a + [c] + b == a + ([c] + b);
      assert s[..n] == a[..n];
      if n < |a| {
        assert s[n..] == a[n..] + [c] + b;
        WordsAppend(a[n..], c, b);
      } else {
        assert s[n..] == [c] + b;
        assert ([c] + b)[1..] == b;
        assert a[n..] == [];
      }
    }
  }

  /** The leading word of `a + b` is that of `a` when `a` ends in whitespace or `b` starts with it. */
  lemma {:induction false} WordLengthPrefix(a: string, b: string)
    requires |a| > 0 && !IsSpace(a[0])
    requires WordLength(a) < |a| || (|b| > 0 && IsSpace(b[0]))
    ensures WordLength(a + b) == WordLength(a)
    decreases |a|
  {
    if |a| > 1 && !IsSpace(a[1]) {
      assert (a + b)[1..] == a[1..] + b;
      WordLengthPrefix(a[1..], b);
    } else if |a| > 1 {
      assert (a + b)[1..] == a[1..] + b;
    } else {
      assert (a + b)[1..] == b;
    }
  }

  /** A single word splits into itself. */
  lemma WordsOfWord(w: string)
    requires IsWord(w)
    ensures Words(w) == [w]
  {
    assert !IsSpace(w[0]);
    assert WordLength(w) == |w|;
    assert w[..|w|] == w;
    assert w[|w|..] == [];
    assert Words(w) == [w[..|w|]] + Words(w[|w|..]);
  }

  // ---------------------------------------------------------------------------
  // str.strip()

  function StripLeft(s: string): (r: string)
    ensures |r| <= |s|
  {
    if s != [] && IsSpace(s[0]) then StripLeft(s[1..]) else s
  }

  function StripRight(s: string): (r: string)
    ensures |r| <= |s|
  {
    if s != [] && IsSpace(s[|s| - 1]) then StripRight(s[..|s| - 1]) else s
  }

  /** `str.strip()`: drop leading and trailing whitespace. */
  function Strip(s: string): (r: string)
    ensures |r| <= |s|
  {
    StripRight(StripLeft(s))
  }

  /**
   * `strip` keeps a slice `s[l..l + |r|]` and removes only whitespace on
   * either side of it; what it keeps neither starts nor ends with whitespace,
   * and text that neither starts nor ends with whitespace is kept whole.
   */
  lemma StripEnds(s: string)
    ensures var r := Strip(s); var l := |s| - |StripLeft(s)|;
      && l + |r| <= |s| && r == s[l..l + |r|]
      && (forall i :: 0 <= i < l ==> IsSpace(s[i]))
      && (forall i :: l + |r| <= i < |s| ==> IsSpace(s[i]))
      && (r != [] ==> !IsSpace(r[0]) && !IsSpace(r[|r| - 1]))
      && (s != [] && !IsSpace(s[0]) && !IsSpace(s[|s| - 1]) ==> r == s)
  {
    StripSlice(s);
    StripLeftEnds(s);
    StripRightEnds(StripLeft(s));
  }

  /** What `strip` removes, on either side of the slice it keeps, is whitespace. */
  lemma StripSlice(s: string)
    ensures var r := Strip(s); var l := |s| - |StripLeft(s)|;
      && l + |r| <= |s| && r == s[l..l + |r|]
      && (forall i :: 0 <= i < l ==> IsSpace(s[i]))
      && (forall i :: l + |r| <= i < |s| ==> IsSpace(s[i]))
  {
    var left := StripLeft(s);
    var r := StripRight(left);
    var l := |s| - |left|;
    assert left == s[l..] && forall i :: 0 <= i < l ==> IsSpace(s[i]) by {
      StripLeftEnds(s);
    }
    assert r == left[..|r|] && forall j :: |r| <= j < |left| ==> IsSpace(left[j]) by {
      StripRightEnds(left);
    }
    assert r == s[l..l + |r|];
    forall i | l + |r| <= i < |s|
      ensures IsSpace(s[i])
    {
      assert s[i] == left[i - l];
    }
  }

  /** `lstrip` drops a prefix of whitespace, and what it keeps does not start with whitespace. */
  lemma {:induction false} StripLeftEnds(s: string)
    ensures StripLeft(s) == s[|s| - |StripLeft(s)|..]
    ensures forall i :: 0 <= i < |s| - |StripLeft(s)| ==> IsSpace(s[i])
    ensures StripLeft(s) != [] ==> !IsSpace(StripLeft(s)[0])
    decreases |s|
  {
    if s != [] && IsSpace(s[0]) {
      StripLeftEnds(s[1..]);
    }
  }

  /** `rstrip` drops a suffix of whitespace, and what it keeps does not end with whitespace. */
  lemma {:induction false} StripRightEnds(s: string)
    ensures StripRight(s) == s[..|StripRight(s)|]
    ensures forall i :: |StripRight(s)| <= i < |s| ==> IsSpace(s[i])
    ensures StripRight(s) != [] ==> !IsSpace(StripRight(s)[|StripRight(s)| - 1])
    decreases |s|
  {
    if s != [] && IsSpace(s[|s| - 1]) {
      StripRightEnds(s[..|s| - 1]);
    }
  }

  /** `not s.strip()`: the text is empty or whitespace only. */
  predicate IsBlank(s: string) {
    Strip(s) == []
  }

  lemma {:induction false} StripLeftBlank(s: string)
    ensures StripLeft(s) == [] <==> forall i :: 0 <= i < |s| ==> IsSpace(s[i])
    decreases |s|
  {
    if s != [] && IsSpace(s[0]) {
      StripLeftBlank(s[1..]);
      assert forall i :: 1 <= i < |s| ==> s[i] == s[1..][i - 1];
    }
  }

  lemma {:induction false} StripLeftNonBlank(s: string)
    requires StripLeft(s) != []
    ensures !IsSpace(StripLeft(s)[0])
    decreases |s|
  {
    if s != [] && IsSpace(s[0]) {
      StripLeftNonBlank(s[1..]);
    }
  }

  lemma {:induction false} StripRightKeepsHead(s: string)
    requires s != [] && !IsSpace(s[0])
    ensures StripRight(s) != [] && StripRight(s)[0] == s[0]
    decreases |s|
  {
    if IsSpace(s[|s| - 1]) {
      StripRightKeepsHead(s[..|s| - 1]);
    }
  }

  /** `s.strip()` is empty exactly when every character of `s` is whitespace. */
  lemma BlankIffAllSpace(s: string)
    ensures IsBlank(s) <==> forall i :: 0 <= i < |s| ==> IsSpace(s[i])
  {
    StripLeftBlank(s);
    if StripLeft(s) != [] {
      StripLeftNonBlank(s);
      StripRightKeepsHead(StripLeft(s));
    }
  }

  // ---------------------------------------------------------------------------
  // Substrings, str.split(sep), sep.join(parts), str.splitlines()

  predicate OccursAt(s: string, sub: string, i: int) {
    0 <= i && i + |sub| <= |s| && s[i..i + |sub|] == sub
  }

  /** `sub in s` for strings. */
  predicate Contains(s: string, sub: string) {
    exists i | 0 <= i <= |s| - |sub| :: OccursAt(s, sub, i)
  }

  /** `d.join(parts)`. */
  function Join(parts: seq<string>, d: string): string {
    if |parts| == 0 then []
    else if |parts| == 1 then parts[0]
    else parts[0] + d + Join(parts[1..], d)
  }

  /**
   * `s.split(d)` for a non-empty separator: cut at the leftmost occurrence of
   * `d`, then continue after it. Always at least one part.
   */
  function SplitOn(s: string, d: string): (parts: seq<string>)
    requires |d| > 0
    ensures |parts| >= 1
    decreases |s|
  {
    if |s| < |d| then [s]
    else if s[..|d|] == d then [[]] + SplitOn(s[|d|..], d)
    else
      var rest := SplitOn(s[1..], d);
      [[s[0]] + rest[0]] + rest[1..]
  }

  /** Joining the parts of a split gives the text back, for every text. */
  lemma {:induction false} JoinSplitOn(s: string, d: string)
    requires |d| > 0
    ensures Join(SplitOn(s, d), d) == s
    decreases |s|
  {
    if |s| < |d| {
    } else if s[..|d|] == d {
      JoinSplitOn(s[|d|..], d);
      var rest := SplitOn(s[|d|..], d);
      assert SplitOn(s, d) == [[]] + rest;
      assert ([[]] + rest)[1..] == rest;
      assert s == s[..|d|] + s[|d|..];
    } else {
      JoinSplitOn(s[1..], d);
      var rest := SplitOn(s[1..], d);
      var parts := [[s[0]] + rest[0]] + rest[1..];
      assert SplitOn(s, d) == parts;
      assert parts[1..] == rest[1..];
      if |rest| == 1 {
        assert s == [s[0]] + s[1..];
      } else {
        assert Join(rest, d) == rest[0] + d + Join(rest[1..], d);
        assert s == [s[0]] + s[1..];
      }
    }
  }

  /** No occurrence of `d` starts inside `p` when `d` is written after `p`. */
  predicate NoEarlyDelimiter(p: string, d: string) {
    forall i :: 0 <= i < |p| ==> !OccursAt(p + d, d, i)
  }

  /** `d` does not occur in `p`. */
  predicate FreeOf(p: string, d: string) {
    forall i :: 0 <= i <= |p| - |d| ==> !OccursAt(p, d, i)
  }

  lemma {:induction false} SplitOnFree(p: string, d: string)
    requires |d| > 0 && FreeOf(p, d)
    ensures SplitOn(p, d) == [p]
    decreases |p|
  {
    if |p| >= |d| {
      assert !OccursAt(p, d, 0);
      forall i | 0 <= i <= |p[1..]| - |d|
        ensures !OccursAt(p[1..], d, i)
      {
        assert !OccursAt(p, d, i + 1);
        assert p[1..][i..i + |d|] == p[i + 1..i + 1 + |d|];
      }
      SplitOnFree(p[1..], d);
      assert [p[0]] + p[1..] == p;
    }
  }

  lemma {:induction false} SplitOnAfter(p: string, d: string, rest: string)
    requires |d| > 0 && NoEarlyDelimiter(p, d)
    ensures SplitOn(p + d + rest, d) == [p] + SplitOn(rest, d)
    decreases |p|
  {
    var s := p + d + rest;
    if p == [] {
      assert s[..|d|] == d;
      assert s[|d|..] == rest;
    } else {
      assert !OccursAt(p + d, d, 0);
      assert s[..|d|] == (p + d)[..|d|];
      forall i | 0 <= i < |p[1..]|
        ensures !OccursAt(p[1..] + d, d, i)
      {
        assert !OccursAt(p + d, d, i + 1);
        assert (p[1..] + d)[i..i + |d|] == (p + d)[i + 1..i + 1 + |d|];
      }
      SplitOnAfter(p[1..], d, rest);
      assert s[1..] == p[1..] + d + rest;
      assert [p[0]] + p[1..] == p;
    }
  }

  /**
   * Splitting a join gives the parts back when no delimiter can be found
   * anywhere but between two parts.
   */
  lemma {:induction false} SplitOnJoin(parts: seq<string>, d: string)
    requires |d| > 0 && |parts| > 0
    requires forall k :: 0 <= k < |parts| - 1 ==> NoEarlyDelimiter(parts[k], d)
    requires FreeOf(parts[|parts| - 1], d)
    ensures SplitOn(Join(parts, d), d) == parts
    decreases |parts|
  {
    if |parts| == 1 {
      SplitOnFree(parts[0], d);
    } else {
      SplitOnJoin(parts[1..], d);
      SplitOnAfter(parts[0], d, Join(parts[1..], d));
      assert parts == [parts[0]] + parts[1..];
    }
  }

  /** `s.split(d)` is a left inverse of `d.join` only under that condition: `"a%nl"` breaks it. */
  lemma SplitOnJoinNeedsCondition()
    ensures SplitOn(Join(["a%nl", "b"], "%nl%"), "%nl%") == ["a", "nl%b"]
  {
    var s := Join(["a%nl", "b"], "%nl%");
    assert s == "a%nl%nl%b";
    assert s[..4][0] == 'a';
    assert s[1..][..4] == "%nl%";
    assert s[1..][4..] == "nl%b";
    var t := "nl%b";
    assert t[..4][0] == 'n';
    assert SplitOn(t[1..], "%nl%") == [t[1..]];
    assert [t[0]] + t[1..] == t;
    assert SplitOn(t, "%nl%") == [t];
    assert SplitOn(s[1..], "%nl%") == [[], t];
    assert [s[0]] + [] == "a";
  }

  /** Joining words with a space and splitting on whitespace gives the words back. */
  lemma {:induction false} WordsJoin(parts: seq<string>)
    requires forall k :: 0 <= k < |parts| ==> IsWord(parts[k])
    ensures Words(Join(parts, " ")) == parts
    decreases |parts|
  {
    if |parts| == 1 {
      WordsOfWord(parts[0]);
    } else if |parts| > 1 {
      WordsJoin(parts[1..]);
      WordsOfWord(parts[0]);
      assert parts[0] + " " + Join(parts[1..], " ") == parts[0] + [' '] + Join(parts[1..], " ");
      WordsAppend(parts[0], ' ', Join(parts[1..], " "));
      assert parts == [parts[0]] + parts[1..];
    }
  }

  /**
   * `str.splitlines()` with '\n' as the only line break: the parts of
   * `s.split("\n")`, except that a final empty part (the text ends with a line
   * break, or is empty) is not a line.
   */
  function SplitLines(s: string): (lines: seq<string>)
    ensures s == [] ==> lines == []
  {
    var parts := SplitOn(s, "\n");
    if parts[|parts| - 1] == [] then parts[..|parts| - 1] else parts
  }

  /** No part of a split on a one-character separator contains that character. */
  lemma {:induction false} SplitOnNoSeparator(s: string, c: char)
    ensures forall k :: 0 <= k < |SplitOn(s, [c])| ==> c !in SplitOn(s, [c])[k]
    decreases |s|
  {
    if |s| >= 1 {
      SplitOnNoSeparator(s[1..], c);
      if s[..1] != [c] {
        assert s[0] != c;
        var rest := SplitOn(s[1..], [c]);
        assert forall k :: 1 <= k < |SplitOn(s, [c])| ==> SplitOn(s, [c])[k] == rest[k];
      }
    }
  }

  /** The last character of a join with a non-empty last part is that part's last character. */
  lemma JoinEndsWithLastPart(parts: seq<string>, d: string)
    requires parts != [] && parts[|parts| - 1] != []
    ensures var j, last := Join(parts, d), parts[|parts| - 1];
      j != [] && j[|j| - 1] == last[|last| - 1]
  {
    if |parts| > 1 {
      assert parts == parts[..|parts| - 1] + [parts[|parts| - 1]];
      JoinSnoc(parts[..|parts| - 1], parts[|parts| - 1], d);
    }
  }

  /**
   * No line holds a line break, and the lines joined by line breaks give the
   * text back, without the line break that ends it, if any.
   */
  lemma SplitLinesJoin(s: string)
    ensures forall k :: 0 <= k < |SplitLines(s)| ==> '\n' !in SplitLines(s)[k]
    ensures Join(SplitLines(s), "\n") == if s != [] && s[|s| - 1] == '\n' then s[..|s| - 1] else s
  {
    var parts := SplitOn(s, "\n");
    JoinSplitOn(s, "\n");
    SplitOnNoSeparator(s, '\n');
    var last := parts[|parts| - 1];
    if last == [] {
      var init := parts[..|parts| - 1];
      if |init| > 0 {
        assert parts == init + [[]];
        JoinSnoc(init, [], "\n");
        assert s == Join(init, "\n") + "\n";
        assert s[..|s| - 1] == Join(init, "\n");
      } else {
        assert s == [];
      }
    } else {
      JoinEndsWithLastPart(parts, "\n");
      assert last[|last| - 1] in last;
    }
  }

  /** Words of the parts of a '\n'-join are the words of the joined text. */
  lemma {:induction false} WordsOfJoinLines(parts: seq<string>)
    ensures Flatten(WordsPerLine(parts)) == Words(Join(parts, "\n"))
    decreases |parts|
  {
    if |parts| == 1 {
    } else if |parts| > 1 {
      WordsOfJoinLines(parts[1..]);
      assert parts[0] + "\n" + Join(parts[1..], "\n") == parts[0] + ['\n'] + Join(parts[1..], "\n");
      WordsAppend(parts[0], '\n', Join(parts[1..], "\n"));
      assert WordsPerLine(parts) == [Words(parts[0])] + WordsPerLine(parts[1..]);
    }
  }

  function WordsPerLine(lines: seq<string>): (r: seq<seq<string>>)
    ensures |r| == |lines|
    ensures forall k :: 0 <= k < |lines| ==> r[k] == Words(lines[k])
  {
    seq(|lines|, k requires 0 <= k < |lines| => Words(lines[k]))
  }

  function Flatten<T>(xss: seq<seq<T>>): seq<T> {
    if xss == [] then [] else xss[0] + Flatten(xss[1..])
  }

  /**
   * Splitting the text into lines first and each line into words gives the
   * same words as splitting the whole text: '\n' is whitespace.
   */
  lemma WordsOfLines(s: string)
    ensures Flatten(WordsPerLine(SplitLines(s))) == Words(s)
  {
    SplitLinesJoin(s);
    WordsOfJoinLines(SplitLines(s));
    if s != [] && s[|s| - 1] == '\n' {
      LastSplit(s);
      WordsAppend(s[..|s| - 1], '\n', []);
    }
  }

  /** A non-empty text is its text without the last character, then that character. */
  lemma LastSplit(s: string)
    requires s != []
    ensures s[..|s| - 1] + [s[|s| - 1]] + [] == s
  {
  }

  /** A final line break adds no word. */
  lemma WordsOfTrailingBreak(init: seq<string>)
    requires |init| > 0
    ensures Words(Join(init + [[]], "\n")) == Words(Join(init, "\n"))
  {
    JoinSnoc(init, [], "\n");
    WordsAppend(Join(init, "\n"), '\n', []);
    assert Join(init, "\n") + "\n" == Join(init, "\n") + ['\n'] + [];
  }

  /** Joining one more part adds the delimiter and the part. */
  lemma {:induction false} JoinSnoc(xs: seq<string>, x: string, d: string)
    requires xs != []
    ensures Join(xs + [x], d) == Join(xs, d) + d + x
    decreases |xs|
  {
    if |xs| == 1 {
      assert (xs + [x])[1..] == [x];
    } else {
      assert (xs + [x])[1..] == xs[1..] + [x];
      JoinSnoc(xs[1..], x, d);
    }
  }

  // ---------------------------------------------------------------------------
  // The regular-expression word boundary

  /** Position `i` holds a word character; out-of-range positions do not. */
  predicate WordCharAt(s: string, i: int) {
    0 <= i < |s| && IsWordChar(s[i])
  }

  /** `\b` at position `i` (0..|s|): exactly one of the characters around it is a word character. */
  predicate Boundary(s: string, i: int): (b: bool)
    ensures i == 0 ==> (b <==> |s| > 0 && IsWordChar(s[0]))
    ensures i == |s| > 0 ==> (b <==> IsWordChar(s[|s| - 1]))
    ensures 0 < i < |s| ==> (b <==> IsWordChar(s[i - 1]) != IsWordChar(s[i]))
  {
    WordCharAt(s, i - 1) != WordCharAt(s, i)
  }

  /** `\b kw \b` matches at position `p` of `s`. */
  predicate WholeWordAt(s: string, kw: string, p: int) {
    OccursAt(s, kw, p) && Boundary(s, p) && Boundary(s, p + |kw|)
  }

  /** `re.search(r"\b" + re.escape(kw) + r"\b", s)` finds a match. */
  predicate WholeWordIn(s: string, kw: string): (b: bool)
    ensures b ==> |kw| <= |s|
  {
    exists p | 0 <= p <= |s| - |kw| :: WholeWordAt(s, kw, p)
  }

  /** `re.search(r"\b" + re.escape(kw.lower()) + r"\b", text.lower())`: the whole-word test of the scoring engine. */
  predicate FoundIn(kw: string, text: string): (b: bool)
    ensures b ==> |kw| <= |text|
  {
    WholeWordIn(Lower(text), Lower(kw))
  }

  /** A non-empty keyword of word characters is found in any text equal to it up to case. */
  lemma FoundInItself(kw: string, text: string)
    requires kw != [] && Lower(text) == Lower(kw)
    requires forall i :: 0 <= i < |kw| ==> IsWordChar(kw[i])
    ensures FoundIn(kw, text)
  {
    assert WholeWordAt(Lower(text), Lower(kw), 0);
  }

  /** A whole-word hit needs a word character in the text, so a blank text never has one. */
  lemma WholeWordNotInBlank(s: string, kw: string)
    requires WholeWordIn(s, kw)
    ensures exists i :: 0 <= i < |s| && IsWordChar(s[i])
  {
    var p :| 0 <= p <= |s| - |kw| && WholeWordAt(s, kw, p);
    if WordCharAt(s, p) {
      assert IsWordChar(s[p]);
    } else {
      assert IsWordChar(s[p - 1]);
    }
  }

  /** A text with a whole-word hit is not blank: skipping blank texts loses no hit. */
  lemma FoundInNotBlank(kw: string, text: string)
    requires FoundIn(kw, text)
    ensures !IsBlank(text)
  {
    WholeWordNotInBlank(Lower(text), Lower(kw));
    var i :| 0 <= i < |Lower(text)| && IsWordChar(Lower(text)[i]);
    assert !IsSpace(text[i]);
    BlankIffAllSpace(text);
  }

  /** A keyword never matches as a whole word inside a longer word: "java" is not in "javascript". */
  lemma JavaNotInJavascript()
    ensures !WholeWordIn("javascript", "java")
    ensures WholeWordIn("java and javascript", "java")
  {
    var s := "javascript";
    forall p | 0 <= p <= |s| - 4
      ensures !WholeWordAt(s, "java", p)
    {
      if p == 0 {
        assert WordCharAt(s, 3) && WordCharAt(s, 4);
      } else {
        assert WordCharAt(s, p - 1) && WordCharAt(s, p);
      }
    }
    var t := "java and javascript";
    assert t[0..4] == "java";
    assert !WordCharAt(t, 4) && WordCharAt(t, 3) && WordCharAt(t, 0) && !WordCharAt(t, -1);
    assert WholeWordAt(t, "java", 0);
  }
}
