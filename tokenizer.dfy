/**
 * `tokenize` (src/backend/services/scoring.py): lowercase the text, split it on
 * whitespace, delete every character outside `[a-zA-Z0-9]` from each piece,
 * and drop the pieces that become empty.
 */
module Tokenizer {
  import opened Text

  /** What the tokenizer can produce: a non-empty run of `[a-z0-9]`. */
  predicate IsToken(t: string) {
    |t| > 0 && forall i :: 0 <= i < |t| ==> IsLowerLetter(t[i]) || IsDigit(t[i])
  }

  /**
   * `re.sub(r"[^a-zA-Z0-9]", "", t)`: a one-character string is kept exactly
   * when its character is a letter or digit; `KeepAlnumCounts` and
   * `KeepAlnumAppend` add that every letter and digit is kept, as often as
   * it occurs and in its order.
   */
  function KeepAlnum(t: string): (r: string)
    ensures forall i :: 0 <= i < |r| ==> IsAlnum(r[i]) && r[i] in t
    ensures |r| <= |t|
    ensures |t| == 1 ==> r == (if IsAlnum(t[0]) then t else [])
  {
    if t == [] then []
    else (if IsAlnum(t[0]) then [t[0]] else []) + KeepAlnum(t[1..])
  }

  /** Each letter and digit occurs in the result as often as in the input; nothing else occurs. */
  lemma {:induction false} KeepAlnumCounts(t: string)
    ensures forall c :: multiset(KeepAlnum(t))[c] == (if IsAlnum(c) then multiset(t)[c] else 0)
    decreases |t|
  {
    if t != [] {
      KeepAlnumCounts(t[1..]);
      assert t == [t[0]] + t[1..];
    }
  }

  /** Removing characters works piece by piece, so the kept ones keep their order. */
  lemma {:induction false} KeepAlnumAppend(a: string, b: string)
    ensures KeepAlnum(a + b) == KeepAlnum(a) + KeepAlnum(b)
    decreases |a|
  {
    if a == [] {
      assert a + b == b;
    } else {
      KeepAlnumAppend(a[1..], b);
      assert (a + b)[0] == a[0] && (a + b)[1..] == a[1..] + b;
      var head := if IsAlnum(a[0]) then [a[0]] else [];
      calc {
        KeepAlnum(a + b);
        head + KeepAlnum(a[1..] + b);
        head + (KeepAlnum(a[1..]) + KeepAlnum(b));
        (head + KeepAlnum(a[1..])) + KeepAlnum(b);
      }
    }
  }

  /** The comprehension's body and filter over already-split pieces. */
  function Clean(pieces: seq<string>): seq<string> {
    if pieces == [] then []
    else
      var t := KeepAlnum(pieces[0]);
      (if t == [] then [] else [t]) + Clean(pieces[1..])
  }

  /** Every token is non-empty and made of lower-case letters and digits only. */
  function Tokenize(text: string): (tokens: seq<string>)
    ensures forall k :: 0 <= k < |tokens| ==> IsToken(tokens[k])
  {
    LowerWordsHaveNoUpper(text);
    CleanTokens(Words(Lower(text)));
    Clean(Words(Lower(text)))
  }

  lemma {:induction false} CleanTokens(pieces: seq<string>)
    requires forall k :: 0 <= k < |pieces| ==> forall i :: 0 <= i < |pieces[k]| ==> !IsUpper(pieces[k][i])
    ensures forall k :: 0 <= k < |Clean(pieces)| ==> IsToken(Clean(pieces)[k])
    decreases |pieces|
  {
    if pieces != [] {
      CleanTokens(pieces[1..]);
      var t := KeepAlnum(pieces[0]);
      forall i | 0 <= i < |t|
        ensures IsLowerLetter(t[i]) || IsDigit(t[i])
      {
        var j :| 0 <= j < |pieces[0]| && pieces[0][j] == t[i];
      }
    }
  }

  /** The words of lower-cased text have no upper-case letter. */
  lemma LowerWordsHaveNoUpper(text: string)
    ensures forall k :: 0 <= k < |Words(Lower(text))| ==> forall i :: 0 <= i < |Words(Lower(text))[k]| ==> !IsUpper(Words(Lower(text))[k][i])
  {
    var ws := Words(Lower(text));
    forall k | 0 <= k < |ws|
      ensures forall i :: 0 <= i < |ws[k]| ==> !IsUpper(ws[k][i])
    {
      WordsAreSlices(Lower(text), k);
    }
  }

  /** Every word of `s` is made of characters of `s`. */
  lemma {:induction false} WordsAreSlices(s: string, k: nat)
    requires k < |Words(s)|
    ensures forall i :: 0 <= i < |Words(s)[k]| ==> Words(s)[k][i] in s
    decreases |s|
  {
    if IsSpace(s[0]) {
      WordsAreSlices(s[1..], k);
    } else {
      var n := WordLength(s);
      if k > 0 {
        WordsAreSlices(s[n..], k - 1);
      }
    }
  }

  /**
   * One whitespace-free unit: it is lower-cased, every character outside
   * `[a-z0-9]` is deleted, and the unit is dropped when nothing is left.
   * With `TokenizeAppend` this determines the tokens of every text.
   */
  lemma TokenizeWord(w: string)
    requires IsWord(w)
    ensures Tokenize(w) == (var t := KeepAlnum(Lower(w)); if t == [] then [] else [t])
  {
    var lw := Lower(w);
    var t := KeepAlnum(lw);
    assert IsWord(lw);
    WordsOfWord(lw);
    assert [lw][1..] == [];
    assert Clean([lw]) == (if t == [] then [] else [t]) + Clean([]);
  }

  /** Punctuation is stripped, not the word: `tokenize("C++")` is `["c"]`. */
  lemma TokenizePunctuated()
    ensures Tokenize("C++") == ["c"]
  {
    TokenizeWord("C++");
    LowerPunctuated();
    KeepAlnumPunctuated();
  }

  lemma LowerPunctuated()
    ensures Lower("C++") == "c++"
  {
    var lw := Lower("C++");
    assert lw[0] == 'c' && lw[1] == '+' && lw[2] == '+';
  }

  lemma KeepAlnumPunctuated()
    ensures KeepAlnum("c++") == "c"
  {
    assert "c++" == "c" + ("+" + "+");
    KeepAlnumAppend("+", "+");
    KeepAlnumAppend("c", "+" + "+");
  }

  lemma {:induction false} CleanAppend(a: seq<string>, b: seq<string>)
    ensures Clean(a + b) == Clean(a) + Clean(b)
    decreases |a|
  {
    if a != [] {
      CleanAppend(a[1..], b);
      assert (a + b)[1..] == a[1..] + b;
    } else {
      assert a + b == b;
    }
  }

  /** Tokens keep the order of the text: a whitespace-separated concatenation tokenizes piecewise. */
  lemma TokenizeAppend(a: string, c: char, b: string)
    requires IsSpace(c)
    ensures Tokenize(a + [c] + b) == Tokenize(a) + Tokenize(b)
  {
    LowerAppend(a + [c], b);
    LowerAppend(a, [c]);
    assert Lower([c]) == [c];
    WordsAppend(Lower(a), c, Lower(b));
    CleanAppend(Words(Lower(a)), Words(Lower(b)));
  }

  /** Empty or all-whitespace text has no tokens. */
  lemma TokenizeBlank(text: string)
    requires forall i :: 0 <= i < |text| ==> IsSpace(text[i])
    ensures Tokenize(text) == []
  {
    WordsOfBlank(Lower(text));
  }

  lemma {:induction false} KeepAlnumOfAlnum(t: string)
    requires forall i :: 0 <= i < |t| ==> IsAlnum(t[i])
    ensures KeepAlnum(t) == t
    decreases |t|
  {
    if t != [] {
      KeepAlnumOfAlnum(t[1..]);
      assert [t[0]] + t[1..] == t;
    }
  }

  lemma TokenizeToken(t: string)
    requires IsToken(t)
    ensures Tokenize(t) == [t]
  {
    LowerNoUpper(t);
    WordsOfWord(t);
    KeepAlnumOfAlnum(t);
    assert [t][1..] == [];
    assert Clean([t]) == [t] + Clean([]);
  }

  /**
   * Tokens joined by single spaces tokenize back to themselves; in particular
   * tokenizing is idempotent: `tokenize(" ".join(tokenize(x))) == tokenize(x)`.
   */
  lemma {:induction false} TokenizeJoin(tokens: seq<string>)
    requires forall k :: 0 <= k < |tokens| ==> IsToken(tokens[k])
    ensures Tokenize(Join(tokens, " ")) == tokens
    decreases |tokens|
  {
    if |tokens| == 0 {
      assert Words(Lower([])) == [];
    } else if |tokens| == 1 {
      TokenizeToken(tokens[0]);
    } else {
      TokenizeJoin(tokens[1..]);
      TokenizeToken(tokens[0]);
      assert tokens[0] + " " + Join(tokens[1..], " ") == tokens[0] + [' '] + Join(tokens[1..], " ");
      TokenizeAppend(tokens[0], ' ', Join(tokens[1..], " "));
      assert tokens == [tokens[0]] + tokens[1..];
    }
  }

  lemma TokenizeIdempotent(text: string)
    ensures Tokenize(Join(Tokenize(text), " ")) == Tokenize(text)
  {
    TokenizeJoin(Tokenize(text));
  }
}
