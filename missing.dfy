/**
 * The missing-keyword phase of `section_weighted_score`
 * (src/backend/services/scoring.py): every `jd_keywords` entry that was not
 * matched is reported with the context of its first occurrence in the
 * tokenized job text, or with two empty strings when its tokens never occur.
 */
module Missing {
  import opened Text
  import opened Tokenizer
  import opened Occurrences
  import opened Sections

  /** The context reported for a keyword: that of its first occurrence, else `["", ""]`. */
  function ContextOf(jobTokens: seq<string>, kwTokens: seq<string>): (r: (string, string))
    ensures FindKeywordOccurrences(jobTokens, kwTokens) == [] ==> r == ("", "")
    ensures |kwTokens| > |jobTokens| ==> r == ("", "")
  {
    var occ := FindKeywordOccurrences(jobTokens, kwTokens);
    if occ == [] then ("", "") else ExtractContext(jobTokens, occ[0], |kwTokens|)
  }

  /** The contexts of the unmatched keys among `keys`. */
  function ContextsOf(keys: set<string>, matched: map<string, Weight>, jobTokens: seq<string>)
    : map<string, (string, string)>
  {
    map kw | kw in keys && kw !in matched :: ContextOf(jobTokens, Tokenize(kw))
  }

  /** `missing_keywords` once the loop is done. */
  function MissingContexts(jd: map<string, Weight>, matched: map<string, Weight>, jobText: string)
    : map<string, (string, string)>
  {
    ContextsOf(jd.Keys, matched, Tokenize(jobText))
  }

  lemma ContextsOfAdd(keys: set<string>, matched: map<string, Weight>, jobTokens: seq<string>, kw: string)
    ensures ContextsOf(keys + {kw}, matched, jobTokens) ==
      if kw in matched then ContextsOf(keys, matched, jobTokens)
      else ContextsOf(keys, matched, jobTokens)[kw := ContextOf(jobTokens, Tokenize(kw))]
  {
  }

  /** The inner loop: one context per occurrence, in the order the occurrences are found. */
  method CollectContexts(jobTokens: seq<string>, kwTokens: seq<string>) returns (contexts: seq<(string, string)>)
    ensures |contexts| == |FindKeywordOccurrences(jobTokens, kwTokens)|
    ensures forall j :: 0 <= j < |contexts| ==>
      contexts[j] == ExtractContext(jobTokens, FindKeywordOccurrences(jobTokens, kwTokens)[j], |kwTokens|)
  {
    var occ := FindKeywordOccurrences(jobTokens, kwTokens);
    contexts := [];
    for j := 0 to |occ|
      invariant |contexts| == j
      invariant forall j' :: 0 <= j' < j ==> contexts[j'] == ExtractContext(jobTokens, occ[j'], |kwTokens|)
    {
      contexts := contexts + [ExtractContext(jobTokens, occ[j], |kwTokens|)];
    }
  }

  /** Lines 156-172: the loop over `jd_keywords` that skips matched keywords. */
  method BuildMissing(jd: map<string, Weight>, matched: map<string, Weight>, jobText: string)
    returns (missing: map<string, (string, string)>)
    ensures missing == MissingContexts(jd, matched, jobText)
  {
    var jobTokens := Tokenize(jobText);
    missing := map[];
    var todo := jd.Keys;
    ghost var done: set<string> := {};
    while todo != {}
      invariant todo + done == jd.Keys && todo !! done
      invariant missing == ContextsOf(done, matched, jobTokens)
      decreases |todo|
    {
      var kw :| kw in todo;
      ContextsOfAdd(done, matched, jobTokens, kw);
      todo := todo - {kw};
      done := done + {kw};
      if kw in matched {
        continue;
      }
      var kwTokens := Tokenize(kw);
      var contexts := CollectContexts(jobTokens, kwTokens);
      if |contexts| > 0 {
        missing := missing[kw := contexts[0]];
      } else {
        missing := missing[kw := ("", "")];
      }
    }
  }

  /** Exactly the job keywords that were not matched are reported missing. */
  lemma MissingKeys(jd: map<string, Weight>, matched: map<string, Weight>, jobText: string)
    ensures MissingContexts(jd, matched, jobText).Keys == jd.Keys - matched.Keys
  {
  }

  /** A missing keyword whose tokens occur in the job text carries the context of the least such index. */
  lemma MissingContextAtFirst(jd: map<string, Weight>, matched: map<string, Weight>, jobText: string,
                              kw: string, i: nat)
    requires kw in jd && kw !in matched
    requires MatchesAt(Tokenize(jobText), Tokenize(kw), i)
    requires forall i' :: 0 <= i' < i ==> !MatchesAt(Tokenize(jobText), Tokenize(kw), i')
    ensures MissingContexts(jd, matched, jobText)[kw] == ExtractContext(Tokenize(jobText), i, |Tokenize(kw)|)
  {
    FirstOccurrenceIsLeast(Tokenize(jobText), Tokenize(kw), i);
  }

  /** A missing keyword whose tokens never occur in the job text gets two empty strings. */
  lemma MissingContextEmpty(jd: map<string, Weight>, matched: map<string, Weight>, jobText: string, kw: string)
    requires kw in jd && kw !in matched
    requires forall i :: !MatchesAt(Tokenize(jobText), Tokenize(kw), i)
    ensures MissingContexts(jd, matched, jobText)[kw] == ("", "")
  {
  }

  lemma TokensAreWords(text: string)
    ensures forall k :: 0 <= k < |Tokenize(text)| ==> IsWord(Tokenize(text)[k])
  {
    forall k | 0 <= k < |Tokenize(text)|
      ensures IsWord(Tokenize(text)[k])
    {
      assert IsToken(Tokenize(text)[k]);
    }
  }

  /** The entry of a missing keyword is `ContextOf` its tokens in the job tokens. */
  lemma MissingContextIsContextOf(jd: map<string, Weight>, matched: map<string, Weight>, jobText: string, kw: string)
    requires kw in jd && kw !in matched
    ensures kw in MissingContexts(jd, matched, jobText)
    ensures MissingContexts(jd, matched, jobText)[kw] == ContextOf(Tokenize(jobText), Tokenize(kw))
  {
  }

  lemma ContextOfWindow(tokens: seq<string>, kwTokens: seq<string>, i: nat)
    requires forall k :: 0 <= k < |tokens| ==> IsWord(tokens[k])
    requires MatchesAt(tokens, kwTokens, i)
    requires forall i' :: 0 <= i' < i ==> !MatchesAt(tokens, kwTokens, i')
    ensures var ctx := ContextOf(tokens, kwTokens);
      var end := i + |kwTokens|;
      var nb := if i < Window then i else Window;
      var na := if |tokens| - end < Window then |tokens| - end else Window;
      Words(ctx.0) == tokens[i - nb..i] && Words(ctx.1) == tokens[end..end + na]
  {
    FirstOccurrenceIsLeast(tokens, kwTokens, i);
    ContextWindowBound(tokens, i, |kwTokens|);
  }
}
