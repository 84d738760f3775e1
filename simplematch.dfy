/**
 * The plain set-overlap scorer of app/utils.py: `extract_keywords` collects
 * the runs of three or more letters that stand as whole words in the
 * lower-cased text, and `match_score` compares the two keyword sets.
 */
module SimpleMatch {
  import opened Wrappers
  import opened Text
  import opened Sets

  predicate IsLetter(c: char) { IsUpper(c) || IsLowerLetter(c) }

  /** `\b[a-zA-Z]{3,}\b` matches `s[i..j]`: three or more letters with a word boundary on each side. */
  predicate LetterWordAt(s: string, i: int, j: int) {
    && 0 <= i && i + 3 <= j <= |s|
    && (forall k :: i <= k < j ==> IsLetter(s[k]))
    && Boundary(s, i) && Boundary(s, j)
  }

  /** `set(re.findall(r'\b[a-zA-Z]{3,}\b', text.lower()))`. */
  function ExtractKeywords(text: string): (r: set<string>)
    ensures forall w :: w in r ==> |w| >= 3 && forall k :: 0 <= k < |w| ==> IsLowerLetter(w[k])
  {
    var s := Lower(text);
    set i, j | 0 <= i <= j <= |s| && LetterWordAt(s, i, j) :: s[i..j]
  }

  /** The three values `match_score` returns, the score before rounding. */
  datatype MatchResult = MatchResult(score: real, overlap: set<string>, missing: set<string>)

  /**
   * `match_score(resume_text, job_text)`: the share of the job's keywords the
   * résumé has, as a percentage, and the shared and the missing keywords. A
   * job text without keywords makes line 17 divide by zero.
   */
  function MatchScore(resumeText: string, jobText: string): (r: Result<MatchResult>)
    ensures r.Err? <==> ExtractKeywords(jobText) == {}
  {
    var resumeWords := ExtractKeywords(resumeText);
    var jobWords := ExtractKeywords(jobText);
    if |jobWords| == 0 then Err("division by zero")
    else
      var overlap := resumeWords * jobWords;
      Ok(MatchResult(|overlap| as real / |jobWords| as real * 100.0, overlap, jobWords - resumeWords))
  }

  /** Shared and missing keywords split the job's keywords: disjoint, and together all of them. */
  lemma MatchPartition(resumeText: string, jobText: string)
    requires MatchScore(resumeText, jobText).Ok?
    ensures var m := MatchScore(resumeText, jobText).value;
      && m.overlap !! m.missing
      && m.overlap + m.missing == ExtractKeywords(jobText)
      && m.overlap <= ExtractKeywords(resumeText)
      && m.missing !! ExtractKeywords(resumeText)
  {
  }

  /** A part of a non-empty whole, as a percentage, lies between 0 and 100; the whole is 100. */
  lemma PercentOfWhole(part: set<string>, whole: set<string>)
    requires part <= whole && |whole| > 0
    ensures 0.0 <= |part| as real / |whole| as real * 100.0 <= 100.0
    ensures part == whole ==> |part| as real / |whole| as real * 100.0 == 100.0
  {
    SubsetCard(part, whole);
    var q := |part| as real / |whole| as real;
    assert q * |whole| as real == |part| as real;
  }

  /** The score is a percentage: between 0 and 100. */
  lemma MatchScoreBounds(resumeText: string, jobText: string)
    requires MatchScore(resumeText, jobText).Ok?
    ensures 0.0 <= MatchScore(resumeText, jobText).value.score <= 100.0
  {
    var jobWords := ExtractKeywords(jobText);
    PercentOfWhole(ExtractKeywords(resumeText) * jobWords, jobWords);
  }

  /** A text with keywords matched against itself scores 100 with nothing missing. */
  lemma SelfMatch(text: string)
    requires ExtractKeywords(text) != {}
    ensures MatchScore(text, text) == Ok(MatchResult(100.0, ExtractKeywords(text), {}))
  {
    var w := ExtractKeywords(text);
    assert w * w == w;
    assert w - w == {};
    PercentOfWhole(w, w);
  }

  lemma LowerIdempotent(s: string)
    ensures Lower(Lower(s)) == Lower(s)
  {
    LowerNoUpper(Lower(s));
  }

  /** Keywords ignore case: a text and its lower-cased form give the same keywords. */
  lemma ExtractIgnoresCase(text: string)
    ensures ExtractKeywords(Lower(text)) == ExtractKeywords(text)
  {
    LowerIdempotent(text);
  }

  /** Lower-casing a lower-case word padded by spaces leaves the word and the spaces. */
  lemma LowerPadded(a: string, w: string, b: string)
    requires forall k :: 0 <= k < |w| ==> IsLowerLetter(w[k])
    ensures Lower(a + " " + w + " " + b) == Lower(a) + " " + w + " " + Lower(b)
  {
    LowerNoUpper(w);
    LowerAppend(a + " " + w + " ", b);
    LowerAppend(a + " " + w, " ");
    LowerAppend(a + " ", w);
    LowerAppend(a, " ");
  }

  /**
   * A run of three or more lower-case letters between two spaces is a keyword,
   * whatever surrounds it.
   */
  lemma LetterWordExtracted(a: string, w: string, b: string)
    requires |w| >= 3 && forall k :: 0 <= k < |w| ==> IsLowerLetter(w[k])
    ensures w in ExtractKeywords(a + " " + w + " " + b)
  {
    var text := a + " " + w + " " + b;
    LowerPadded(a, w, b);
    var s := Lower(text);
    var i := |a| + 1;
    var j := i + |w|;
    assert s[i..j] == w;
    assert s[i - 1] == ' ' && s[j] == ' ';
    assert LetterWordAt(s, i, j);
  }

  /** A letter run glued to a digit is not a keyword: `python3` yields none, not `python`. */
  lemma GluedRunNotExtracted()
    ensures ExtractKeywords("python3") == {}
  {
    var s := "python3";
    LowerNoUpper(s);
    forall i, j | 0 <= i <= j <= |s| && LetterWordAt(s, i, j)
      ensures false
    {
    }
  }
}
