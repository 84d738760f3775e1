/**
 * `find_keyword_occurrences` and `extract_context`
 * (src/backend/services/scoring.py): the fixed-length sliding-window scan for
 * a keyword's tokens in a token sequence, and the window of at most three
 * tokens on each side of a match.
 */
module Occurrences {
  import opened Text

  /** `tokens[i:i+k] == keyword_tokens` for an index the scan visits. */
  predicate MatchesAt(tokens: seq<string>, kw: seq<string>, i: int) {
    0 <= i && i + |kw| <= |tokens| && tokens[i..i + |kw|] == kw
  }

  /** The generator from index `from` on: every visited index whose window equals `kw`. */
  function OccurrencesFrom(tokens: seq<string>, kw: seq<string>, from: nat): (r: seq<nat>)
    ensures forall j :: 0 <= j < |r| ==> from <= r[j] && MatchesAt(tokens, kw, r[j])
    ensures forall i :: from <= i && MatchesAt(tokens, kw, i) ==> i in r
    ensures forall j, j' :: 0 <= j < j' < |r| ==> r[j] < r[j']
    decreases |tokens| - from
  {
    if from + |kw| > |tokens| then []
    else (if MatchesAt(tokens, kw, from) then [from] else []) + OccurrencesFrom(tokens, kw, from + 1)
  }

  /**
   * `find_keyword_occurrences(tokens, keyword_tokens)`: exactly the indices
   * where the keyword's tokens appear, in increasing order; none when the
   * keyword is longer than the text.
   */
  function FindKeywordOccurrences(tokens: seq<string>, kw: seq<string>): (r: seq<nat>)
    ensures forall j :: 0 <= j < |r| ==> MatchesAt(tokens, kw, r[j])
    ensures forall i :: MatchesAt(tokens, kw, i) ==> i in r
    ensures forall j, j' :: 0 <= j < j' < |r| ==> r[j] < r[j']
    ensures |kw| > |tokens| ==> r == []
  {
    OccurrencesFrom(tokens, kw, 0)
  }

  /** The first occurrence reported is the least index where the keyword appears. */
  lemma FirstOccurrenceIsLeast(tokens: seq<string>, kw: seq<string>, i: nat)
    requires MatchesAt(tokens, kw, i)
    ensures |FindKeywordOccurrences(tokens, kw)| > 0
    ensures FindKeywordOccurrences(tokens, kw)[0] <= i
    ensures MatchesAt(tokens, kw, FindKeywordOccurrences(tokens, kw)[0])
  {
    var r := FindKeywordOccurrences(tokens, kw);
    var j :| 0 <= j < |r| && r[j] == i;
    if j > 0 {
      assert r[0] < r[j];
    }
  }

  /** The window size: `window=3` is the default no caller overrides. */
  const Window: nat := 3

  /** Python's `s[a:b]` for non-negative bounds: both ends clamp to the length. */
  function Slice<T>(s: seq<T>, a: nat, b: nat): seq<T> {
    var lo := if a < |s| then a else |s|;
    var hi := if b < lo then lo else if b < |s| then b else |s|;
    s[lo..hi]
  }

  /** The tokens before a match: `tokens[max(0, start - 3):start]`. */
  function BeforeTokens(tokens: seq<string>, start: nat): (r: seq<string>)
    ensures |r| <= Window
    ensures start <= |tokens| ==> r == tokens[if start < Window then 0 else start - Window..start]
  {
    Slice(tokens, if start < Window then 0 else start - Window, start)
  }

  /** The tokens after a match: `tokens[start + k:min(len(tokens), start + k + 3)]`. */
  function AfterTokens(tokens: seq<string>, start: nat, kwLen: nat): (r: seq<string>)
    ensures |r| <= Window
    ensures start + kwLen <= |tokens| ==>
      r == tokens[start + kwLen..if start + kwLen + Window < |tokens| then start + kwLen + Window else |tokens|]
  {
    var afterEnd := if |tokens| < start + kwLen + Window then |tokens| else start + kwLen + Window;
    Slice(tokens, start + kwLen, afterEnd)
  }

  /** `extract_context(tokens, start_idx, kw_len)`: the two windows joined with single spaces. */
  function ExtractContext(tokens: seq<string>, start: nat, kwLen: nat): (r: (string, string))
    ensures start == 0 ==> r.0 == ""
    ensures start + kwLen >= |tokens| ==> r.1 == ""
  {
    (Join(BeforeTokens(tokens, start), " "), Join(AfterTokens(tokens, start, kwLen), " "))
  }

  /** Splitting a context string on whitespace gives back the window's tokens. */
  lemma ContextSplitsBack(tokens: seq<string>, start: nat, kwLen: nat)
    requires forall k :: 0 <= k < |tokens| ==> IsWord(tokens[k])
    ensures Words(ExtractContext(tokens, start, kwLen).0) == BeforeTokens(tokens, start)
    ensures Words(ExtractContext(tokens, start, kwLen).1) == AfterTokens(tokens, start, kwLen)
  {
    SliceOfWords(tokens, if start < Window then 0 else start - Window, start);
    var afterEnd := if |tokens| < start + kwLen + Window then |tokens| else start + kwLen + Window;
    SliceOfWords(tokens, start + kwLen, afterEnd);
    WordsJoin(BeforeTokens(tokens, start));
    WordsJoin(AfterTokens(tokens, start, kwLen));
  }

  lemma SliceOfWords(tokens: seq<string>, a: nat, b: nat)
    requires forall k :: 0 <= k < |tokens| ==> IsWord(tokens[k])
    ensures forall k :: 0 <= k < |Slice(tokens, a, b)| ==> IsWord(Slice(tokens, a, b)[k])
  {
    var lo := if a < |tokens| then a else |tokens|;
    var hi := if b < lo then lo else if b < |tokens| then b else |tokens|;
    assert forall k :: 0 <= k < hi - lo ==> Slice(tokens, a, b)[k] == tokens[lo + k];
  }

  /**
   * Each side of a context holds at most three space-joined tokens, and they
   * are the tokens right next to the match.
   */
  lemma ContextWindowBound(tokens: seq<string>, start: nat, kwLen: nat)
    requires forall k :: 0 <= k < |tokens| ==> IsWord(tokens[k])
    requires start + kwLen <= |tokens|
    ensures var ctx := ExtractContext(tokens, start, kwLen);
      && |Words(ctx.0)| == (if start < Window then start else Window)
      && |Words(ctx.1)| == (if |tokens| - (start + kwLen) < Window then |tokens| - (start + kwLen) else Window)
      && tokens[start - |Words(ctx.0)|..start] == Words(ctx.0)
      && tokens[start + kwLen..start + kwLen + |Words(ctx.1)|] == Words(ctx.1)
  {
    ContextSplitsBack(tokens, start, kwLen);
  }
}
