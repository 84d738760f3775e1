/**
 * The first half of `section_weighted_score` (src/backend/services/scoring.py):
 * the "extra" keywords (job-text words with two or more upper-case letters
 * that are not catalog entries) and `jd_keywords`, the keywords present in the
 * job text, all at the SKILLS weight.
 */
module JdKeywords {
  import opened Text
  import opened Sections

  /** Line 124's test: two or more upper-case characters, and not a catalog entry as written. */
  predicate IsExtraWord(word: string, keywords: seq<string>) {
    CountUpper(word) >= 2 && word !in keywords
  }

  /** The extra keywords of a list of words, lower-cased, punctuation kept, in order. */
  function ExtrasOfWords(words: seq<string>, keywords: seq<string>): seq<string> {
    if words == [] then []
    else
      var w := words[|words| - 1];
      ExtrasOfWords(words[..|words| - 1], keywords) + (if IsExtraWord(w, keywords) then [Lower(w)] else [])
  }

  /** The extra keywords of the job text's lines, line after line. */
  function ExtrasOfLines(lines: seq<string>, keywords: seq<string>): seq<string> {
    if lines == [] then []
    else ExtrasOfLines(lines[..|lines| - 1], keywords) + ExtrasOfWords(Words(lines[|lines| - 1]), keywords)
  }

  /** `extra_keywords` once the loop over `job_text.splitlines()` is done. */
  function ExtraKeywords(jobText: string, keywords: seq<string>): seq<string> {
    ExtrasOfLines(SplitLines(jobText), keywords)
  }

  /** The nested loop over lines and words that appends every extra keyword. */
  method CollectExtraKeywords(jobText: string, keywords: seq<string>) returns (extras: seq<string>)
    ensures extras == ExtraKeywords(jobText, keywords)
  {
    extras := [];
    var lines := SplitLines(jobText);
    for i := 0 to |lines|
      invariant extras == ExtrasOfLines(lines[..i], keywords)
    {
      var words := Words(lines[i]);
      for j := 0 to |words|
        invariant extras == ExtrasOfLines(lines[..i], keywords) + ExtrasOfWords(words[..j], keywords)
      {
        assert words[..j + 1][..j] == words[..j];
        if CountUpper(words[j]) >= 2 && words[j] !in keywords {
          extras := extras + [Lower(words[j])];
        }
      }
      assert words[..|words|] == words;
      assert lines[..i + 1][..i] == lines[..i];
    }
    assert lines[..|lines|] == lines;
  }

  lemma {:induction false} ExtrasOfWordsAppend(a: seq<string>, b: seq<string>, keywords: seq<string>)
    ensures ExtrasOfWords(a + b, keywords) == ExtrasOfWords(a, keywords) + ExtrasOfWords(b, keywords)
    decreases |b|
  {
    if b == [] {
      assert a + b == a;
    } else {
      var b' := b[..|b| - 1];
      assert (a + b)[..|a + b| - 1] == a + b';
      ExtrasOfWordsAppend(a, b', keywords);
    }
  }

  lemma {:induction false} FlattenSnoc<T>(xss: seq<seq<T>>, xs: seq<T>)
    ensures Flatten(xss + [xs]) == Flatten(xss) + xs
    decreases |xss|
  {
    if xss == [] {
      assert [xs][1..] == [];
    } else {
      assert (xss + [xs])[1..] == xss[1..] + [xs];
      FlattenSnoc(xss[1..], xs);
    }
  }

  lemma {:induction false} ExtrasOfLinesFlatten(lines: seq<string>, keywords: seq<string>)
    ensures ExtrasOfLines(lines, keywords) == ExtrasOfWords(Flatten(WordsPerLine(lines)), keywords)
    decreases |lines|
  {
    if lines != [] {
      var init := lines[..|lines| - 1];
      ExtrasOfLinesFlatten(init, keywords);
      assert WordsPerLine(lines) == WordsPerLine(init) + [Words(lines[|lines| - 1])];
      FlattenSnoc(WordsPerLine(init), Words(lines[|lines| - 1]));
      ExtrasOfWordsAppend(Flatten(WordsPerLine(init)), Words(lines[|lines| - 1]), keywords);
    }
  }

  /** Scanning line by line finds the same extras, in the same order, as scanning all words of the text. */
  lemma ExtraKeywordsOfWords(jobText: string, keywords: seq<string>)
    ensures ExtraKeywords(jobText, keywords) == ExtrasOfWords(Words(jobText), keywords)
  {
    ExtrasOfLinesFlatten(SplitLines(jobText), keywords);
    WordsOfLines(jobText);
  }

  lemma {:induction false} ExtrasOfWordsMembership(words: seq<string>, keywords: seq<string>, k: string)
    ensures k in ExtrasOfWords(words, keywords) <==>
      exists w :: w in words && IsExtraWord(w, keywords) && Lower(w) == k
    decreases |words|
  {
    if words != [] {
      var init := words[..|words| - 1];
      var last := words[|words| - 1];
      ExtrasOfWordsMembership(init, keywords, k);
      assert words == init + [last];
      if k in ExtrasOfWords(words, keywords) && k !in ExtrasOfWords(init, keywords) {
        assert IsExtraWord(last, keywords) && Lower(last) == k;
      }
      if exists w :: w in words && IsExtraWord(w, keywords) && Lower(w) == k {
        var w :| w in words && IsExtraWord(w, keywords) && Lower(w) == k;
        if w != last {
          assert w in init;
        }
      }
    }
  }

  /**
   * A string is an extra keyword exactly when it is the lower-cased form of a
   * whitespace-delimited word of the job text that has at least two
   * upper-case characters and is not, as written, in the catalog.
   */
  lemma ExtraKeywordsMembership(jobText: string, keywords: seq<string>, k: string)
    ensures k in ExtraKeywords(jobText, keywords) <==>
      exists w :: w in Words(jobText) && CountUpper(w) >= 2 && w !in keywords && Lower(w) == k
  {
    ExtraKeywordsOfWords(jobText, keywords);
    ExtrasOfWordsMembership(Words(jobText), keywords, k);
  }

  // ---------------------------------------------------------------------------
  // jd_keywords

  /** Every extra keyword at the SKILLS weight. */
  function WithExtras(extras: seq<string>): map<string, Weight> {
    if extras == [] then map[]
    else WithExtras(extras[..|extras| - 1])[extras[|extras| - 1] := SkillsWeight]
  }

  /** The loop over the catalog that adds each keyword found in the job text. */
  function AddCatalog(jd: map<string, Weight>, keywords: seq<string>, jobText: string): map<string, Weight> {
    if keywords == [] then jd
    else
      var kw := keywords[|keywords| - 1];
      var r := AddCatalog(jd, keywords[..|keywords| - 1], jobText);
      if FoundIn(kw, jobText) then r[kw := SkillsWeight] else r
  }

  /** `jd_keywords` before any résumé section is looked at. */
  function InitialJd(jobText: string, keywords: seq<string>): map<string, Weight> {
    AddCatalog(WithExtras(ExtraKeywords(jobText, keywords)), keywords, jobText)
  }

  /** Lines 121-135: the extra keywords, then `jd_keywords` from the extras and the catalog. */
  method BuildJdKeywords(jobText: string, keywords: seq<string>) returns (extras: seq<string>, jd: map<string, Weight>)
    ensures extras == ExtraKeywords(jobText, keywords)
    ensures jd == InitialJd(jobText, keywords)
  {
    extras := CollectExtraKeywords(jobText, keywords);
    jd := map[];
    for i := 0 to |extras|
      invariant jd == WithExtras(extras[..i])
    {
      assert extras[..i + 1][..i] == extras[..i];
      jd := jd[extras[i] := SkillsWeight];
    }
    assert extras[..|extras|] == extras;
    var jd0 := jd;
    for i := 0 to |keywords|
      invariant jd == AddCatalog(jd0, keywords[..i], jobText)
    {
      assert keywords[..i + 1][..i] == keywords[..i];
      var kw := keywords[i];
      if FoundIn(kw, jobText) {
        jd := jd[kw := SkillsWeight];
      }
    }
    assert keywords[..|keywords|] == keywords;
  }

  lemma {:induction false} WithExtrasSpec(extras: seq<string>)
    ensures WithExtras(extras).Keys == set k | k in extras
    ensures forall k :: k in WithExtras(extras) ==> WithExtras(extras)[k] == SkillsWeight
    decreases |extras|
  {
    if extras != [] {
      WithExtrasSpec(extras[..|extras| - 1]);
      assert extras == extras[..|extras| - 1] + [extras[|extras| - 1]];
    }
  }

  lemma {:induction false} AddCatalogSpec(jd: map<string, Weight>, keywords: seq<string>, jobText: string)
    ensures AddCatalog(jd, keywords, jobText).Keys == jd.Keys + set k | k in keywords && FoundIn(k, jobText)
    ensures forall k :: k in AddCatalog(jd, keywords, jobText) ==>
      AddCatalog(jd, keywords, jobText)[k] == if k in keywords && FoundIn(k, jobText) then SkillsWeight else jd[k]
    decreases |keywords|
  {
    if keywords != [] {
      var init := keywords[..|keywords| - 1];
      AddCatalogSpec(jd, init, jobText);
      assert keywords == init + [keywords[|keywords| - 1]];
    }
  }

  /**
   * `jd_keywords` holds exactly the extra keywords and the catalog keywords
   * with a whole-word hit in the lower-cased job text, all at the SKILLS weight.
   */
  lemma InitialJdSpec(jobText: string, keywords: seq<string>)
    ensures InitialJd(jobText, keywords).Keys ==
      (set k | k in ExtraKeywords(jobText, keywords)) + (set k | k in keywords && FoundIn(k, jobText))
    ensures forall k :: k in InitialJd(jobText, keywords) ==> InitialJd(jobText, keywords)[k] == SkillsWeight
  {
    var extras := ExtraKeywords(jobText, keywords);
    WithExtrasSpec(extras);
    AddCatalogSpec(WithExtras(extras), keywords, jobText);
  }
}
