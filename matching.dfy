/**
 * The matching phase of `section_weighted_score`
 * (src/backend/services/scoring.py): the résumé's sections are visited in
 * order; in each non-blank section every catalog keyword found (as a whole
 * word) in both the section and the job text is matched at the section's
 * weight, then every extra keyword found in the section is matched at the
 * SKILLS weight. A keyword keeps the weight of the first section that matched
 * it; a catalog match also overwrites the keyword's entry in `jd_keywords`.
 */
module Matching {
  import opened Text
  import opened Sections

  /** `matched_keywords` and `jd_keywords` as the loops update them. */
  datatype MatchState = MatchState(matched: map<string, Weight>, jd: map<string, Weight>)

  /** One catalog keyword in one section (lines 144-148). */
  function CatalogStep(st: MatchState, kw: string, text: string, jobText: string, w: Weight): MatchState {
    if FoundIn(kw, text) && FoundIn(kw, jobText) && kw !in st.matched
    then MatchState(st.matched[kw := w], st.jd[kw := w])
    else st
  }

  /** The loop over the catalog for one section. */
  function CatalogPass(st: MatchState, keywords: seq<string>, text: string, jobText: string, w: Weight): MatchState {
    if keywords == [] then st
    else
      var kw := keywords[|keywords| - 1];
      CatalogStep(CatalogPass(st, keywords[..|keywords| - 1], text, jobText, w), kw, text, jobText, w)
  }

  /** One extra keyword in one section (lines 151-153): only the section is searched. */
  function ExtraStep(st: MatchState, kw: string, text: string): MatchState {
    if FoundIn(kw, text) && kw !in st.matched
    then st.(matched := st.matched[kw := SkillsWeight])
    else st
  }

  /** The loop over the extra keywords for one section. */
  function ExtraPass(st: MatchState, extras: seq<string>, text: string): MatchState {
    if extras == [] then st
    else ExtraStep(ExtraPass(st, extras[..|extras| - 1], text), extras[|extras| - 1], text)
  }

  /** One iteration of the loop over `resume_sections.items()`: a blank section is skipped. */
  function MatchSection(st: MatchState, section: (Section, string), keywords: seq<string>,
                        extras: seq<string>, jobText: string): MatchState
  {
    if IsBlank(section.1) then st
    else ExtraPass(CatalogPass(st, keywords, section.1, jobText, SectionWeight(section.0)), extras, section.1)
  }

  /** The whole loop over the sections, in the order given. */
  function MatchSections(st: MatchState, sections: seq<(Section, string)>, keywords: seq<string>,
                         extras: seq<string>, jobText: string): MatchState
  {
    if sections == [] then st
    else
      var init := MatchSections(st, sections[..|sections| - 1], keywords, extras, jobText);
      MatchSection(init, sections[|sections| - 1], keywords, extras, jobText)
  }

  /** Lines 138-153: the nested loops that build `matched_keywords` and update `jd_keywords`. */
  method MatchKeywords(sections: seq<(Section, string)>, jobText: string, keywords: seq<string>,
                       extras: seq<string>, jd0: map<string, Weight>)
    returns (matched: map<string, Weight>, jd: map<string, Weight>)
    ensures MatchState(matched, jd) == MatchSections(MatchState(map[], jd0), sections, keywords, extras, jobText)
  {
    matched := map[];
    jd := jd0;
    for i := 0 to |sections|
      invariant MatchState(matched, jd) == MatchSections(MatchState(map[], jd0), sections[..i], keywords, extras, jobText)
    {
      assert sections[..i + 1][..i] == sections[..i];
      var (section, resText) := sections[i];
      if IsBlank(resText) {
        continue;
      }
      var weight := SectionWeight(section);
      ghost var start := MatchState(matched, jd);
      for j := 0 to |keywords|
        invariant MatchState(matched, jd) == CatalogPass(start, keywords[..j], resText, jobText, weight)
      {
        assert keywords[..j + 1][..j] == keywords[..j];
        var kw := keywords[j];
        if FoundIn(kw, resText) && FoundIn(kw, jobText) && kw !in matched {
          matched := matched[kw := weight];
          jd := jd[kw := weight];
        }
      }
      assert keywords[..|keywords|] == keywords;
      ghost var afterCatalog := MatchState(matched, jd);
      if |extras| > 0 {
        for j := 0 to |extras|
          invariant MatchState(matched, jd) == ExtraPass(afterCatalog, extras[..j], resText)
        {
          assert extras[..j + 1][..j] == extras[..j];
          var kw := extras[j];
          if FoundIn(kw, resText) && kw !in matched {
            matched := matched[kw := SkillsWeight];
          }
        }
        assert extras[..|extras|] == extras;
      }
    }
    assert sections[..|sections|] == sections;
  }

  // ---------------------------------------------------------------------------
  // What happens to one keyword

  /** A catalog keyword hits a section's text: it is in the catalog and found in both texts. */
  predicate CatalogHit(k: string, text: string, keywords: seq<string>, jobText: string) {
    k in keywords && FoundIn(k, text) && FoundIn(k, jobText)
  }

  /** An extra keyword hits a section's text: only the section is searched. */
  predicate ExtraHit(k: string, text: string, extras: seq<string>) {
    k in extras && FoundIn(k, text)
  }

  predicate SectionHit(k: string, section: (Section, string), keywords: seq<string>, extras: seq<string>, jobText: string) {
    CatalogHit(k, section.1, keywords, jobText) || ExtraHit(k, section.1, extras)
  }

  /** The weight a hit gives: the section's for a catalog hit, else the SKILLS weight. */
  function HitWeight(k: string, section: (Section, string), keywords: seq<string>, jobText: string): Weight {
    if CatalogHit(k, section.1, keywords, jobText) then SectionWeight(section.0) else SkillsWeight
  }

  /** Key `k` has the same entries (or the same absence) in both states. */
  predicate Keeps(st: MatchState, r: MatchState, k: string) {
    && (k in r.matched <==> k in st.matched)
    && (k in st.matched ==> r.matched[k] == st.matched[k])
    && (k in r.jd <==> k in st.jd)
    && (k in st.jd ==> r.jd[k] == st.jd[k])
  }

  lemma {:induction false} CatalogPassEffect(st: MatchState, keywords: seq<string>, text: string, jobText: string,
                                              w: Weight, k: string)
    ensures var r := CatalogPass(st, keywords, text, jobText, w);
      if k !in st.matched && CatalogHit(k, text, keywords, jobText)
      then k in r.matched && r.matched[k] == w && k in r.jd && r.jd[k] == w
      else Keeps(st, r, k)
    decreases |keywords|
  {
    if keywords != [] {
      var init := keywords[..|keywords| - 1];
      CatalogPassEffect(st, init, text, jobText, w, k);
      assert keywords == init + [keywords[|keywords| - 1]];
    }
  }

  lemma {:induction false} ExtraPassEffect(st: MatchState, extras: seq<string>, text: string, k: string)
    ensures var r := ExtraPass(st, extras, text);
      && r.jd == st.jd
      && if k !in st.matched && ExtraHit(k, text, extras)
         then k in r.matched && r.matched[k] == SkillsWeight
         else Keeps(st, r, k)
    decreases |extras|
  {
    if extras != [] {
      var init := extras[..|extras| - 1];
      ExtraPassEffect(st, init, text, k);
      assert extras == init + [extras[|extras| - 1]];
    }
  }

  /**
   * One section leaves a keyword alone unless the keyword is still unmatched
   * and hits the section; then it is matched at the hit's weight, and a
   * catalog hit writes the same weight into `jd_keywords`.
   */
  lemma MatchSectionEffect(st: MatchState, section: (Section, string), keywords: seq<string>,
                           extras: seq<string>, jobText: string, k: string)
    ensures var r := MatchSection(st, section, keywords, extras, jobText);
      if k !in st.matched && SectionHit(k, section, keywords, extras, jobText)
      then
        && k in r.matched && r.matched[k] == HitWeight(k, section, keywords, jobText)
        && if CatalogHit(k, section.1, keywords, jobText)
           then k in r.jd && r.jd[k] == r.matched[k]
           else (k in r.jd <==> k in st.jd) && (k in st.jd ==> r.jd[k] == st.jd[k])
      else Keeps(st, r, k)
  {
    if SectionHit(k, section, keywords, extras, jobText) {
      FoundInNotBlank(k, section.1);
    }
    if !IsBlank(section.1) {
      var w := SectionWeight(section.0);
      CatalogPassEffect(st, keywords, section.1, jobText, w, k);
      ExtraPassEffect(CatalogPass(st, keywords, section.1, jobText, w), extras, section.1, k);
    }
  }

  // ---------------------------------------------------------------------------
  // What the loop over the sections does to one keyword

  /** A matched keyword is never re-weighted: `kw not in matched_keywords` guards every update. */
  lemma {:induction false} MatchedIsSticky(st: MatchState, sections: seq<(Section, string)>, keywords: seq<string>,
                                            extras: seq<string>, jobText: string, k: string)
    requires k in st.matched
    ensures var r := MatchSections(st, sections, keywords, extras, jobText);
      k in r.matched && r.matched[k] == st.matched[k]
    decreases |sections|
  {
    if sections != [] {
      var init := sections[..|sections| - 1];
      MatchedIsSticky(st, init, keywords, extras, jobText, k);
      MatchSectionEffect(MatchSections(st, init, keywords, extras, jobText), sections[|sections| - 1],
                         keywords, extras, jobText, k);
    }
  }

  /** A keyword that hits no section is left exactly as it was. */
  lemma {:induction false} NoHitKeeps(st: MatchState, sections: seq<(Section, string)>, keywords: seq<string>,
                                       extras: seq<string>, jobText: string, k: string)
    requires forall j :: 0 <= j < |sections| ==> !SectionHit(k, sections[j], keywords, extras, jobText)
    ensures Keeps(st, MatchSections(st, sections, keywords, extras, jobText), k)
    decreases |sections|
  {
    if sections != [] {
      var init := sections[..|sections| - 1];
      NoHitKeeps(st, init, keywords, extras, jobText, k);
      MatchSectionEffect(MatchSections(st, init, keywords, extras, jobText), sections[|sections| - 1],
                         keywords, extras, jobText, k);
    }
  }

  /** An unmatched keyword gets the weight of the first section it hits. */
  lemma {:induction false} FirstHitWins(st: MatchState, sections: seq<(Section, string)>, keywords: seq<string>,
                                         extras: seq<string>, jobText: string, k: string, j: nat)
    requires k !in st.matched
    requires j < |sections| && SectionHit(k, sections[j], keywords, extras, jobText)
    requires forall i :: 0 <= i < j ==> !SectionHit(k, sections[i], keywords, extras, jobText)
    ensures var r := MatchSections(st, sections, keywords, extras, jobText);
      k in r.matched && r.matched[k] == HitWeight(k, sections[j], keywords, jobText)
    decreases |sections|
  {
    var n := |sections| - 1;
    var init := sections[..n];
    var before := MatchSections(st, init, keywords, extras, jobText);
    assert MatchSections(st, sections, keywords, extras, jobText)
        == MatchSection(before, sections[n], keywords, extras, jobText);
    assert forall i :: 0 <= i < n ==> init[i] == sections[i];
    if j < n {
      FirstHitWins(st, init, keywords, extras, jobText, k, j);
      MatchSectionEffect(before, sections[n], keywords, extras, jobText, k);
    } else {
      NoHitKeeps(st, init, keywords, extras, jobText, k);
      MatchSectionEffect(before, sections[n], keywords, extras, jobText, k);
    }
  }

  /** Section `j` is the first one keyword `k` hits. */
  predicate FirstHitAt(sections: seq<(Section, string)>, keywords: seq<string>, extras: seq<string>,
                       jobText: string, k: string, j: int)
  {
    && 0 <= j < |sections|
    && SectionHit(k, sections[j], keywords, extras, jobText)
    && forall i :: 0 <= i < j ==> !SectionHit(k, sections[i], keywords, extras, jobText)
  }

  /**
   * Starting from nothing matched, a keyword ends up matched exactly when it
   * hits some section, and then its weight is the weight of its first hit.
   */
  lemma MatchedIffHit(sections: seq<(Section, string)>, keywords: seq<string>, extras: seq<string>,
                      jobText: string, jd0: map<string, Weight>, k: string)
    ensures var r := MatchSections(MatchState(map[], jd0), sections, keywords, extras, jobText);
      && (k in r.matched <==> exists j :: 0 <= j < |sections| && SectionHit(k, sections[j], keywords, extras, jobText))
      && forall j :: FirstHitAt(sections, keywords, extras, jobText, k, j) ==>
           k in r.matched && r.matched[k] == HitWeight(k, sections[j], keywords, jobText)
  {
    var st := MatchState(map[], jd0);
    forall j | FirstHitAt(sections, keywords, extras, jobText, k, j)
      ensures var r := MatchSections(st, sections, keywords, extras, jobText);
        k in r.matched && r.matched[k] == HitWeight(k, sections[j], keywords, jobText)
    {
      FirstHitWins(st, sections, keywords, extras, jobText, k, j);
    }
    if exists j :: 0 <= j < |sections| && SectionHit(k, sections[j], keywords, extras, jobText) {
      var j := FirstHit(sections, keywords, extras, jobText, k);
      FirstHitWins(st, sections, keywords, extras, jobText, k, j);
    } else {
      NoHitKeeps(st, sections, keywords, extras, jobText, k);
    }
  }

  /** The least index of a section a keyword hits. */
  lemma FirstHit(sections: seq<(Section, string)>, keywords: seq<string>, extras: seq<string>,
                 jobText: string, k: string) returns (j: nat)
    requires exists j :: 0 <= j < |sections| && SectionHit(k, sections[j], keywords, extras, jobText)
    ensures j < |sections| && SectionHit(k, sections[j], keywords, extras, jobText)
    ensures forall i :: 0 <= i < j ==> !SectionHit(k, sections[i], keywords, extras, jobText)
  {
    j := 0;
    while !SectionHit(k, sections[j], keywords, extras, jobText)
      invariant j < |sections|
      invariant forall i :: 0 <= i < j ==> !SectionHit(k, sections[i], keywords, extras, jobText)
      decreases |sections| - j
    {
      j := j + 1;
    }
  }

  // ---------------------------------------------------------------------------
  // matched_keywords and jd_keywords stay in agreement

  /**
   * Every matched keyword has the same weight in `jd_keywords`; every unmatched
   * extra keyword is in `jd_keywords` at the SKILLS weight; every catalog
   * keyword found in the job text is in `jd_keywords`.
   */
  predicate Consistent(st: MatchState, keywords: seq<string>, extras: seq<string>, jobText: string) {
    && (forall k :: k in st.matched ==> k in st.jd && st.jd[k] == st.matched[k])
    && (forall k :: k in extras && k !in st.matched ==> k in st.jd && st.jd[k] == SkillsWeight)
    && (forall k :: k in keywords && FoundIn(k, jobText) ==> k in st.jd)
  }

  lemma MatchSectionConsistent(st: MatchState, section: (Section, string), keywords: seq<string>,
                               extras: seq<string>, jobText: string)
    requires Consistent(st, keywords, extras, jobText)
    ensures var r := MatchSection(st, section, keywords, extras, jobText);
      Consistent(r, keywords, extras, jobText) && r.jd.Keys == st.jd.Keys
  {
    var r := MatchSection(st, section, keywords, extras, jobText);
    forall k
      ensures k in r.matched ==> k in r.jd && r.jd[k] == r.matched[k]
      ensures k in extras && k !in r.matched ==> k in r.jd && r.jd[k] == SkillsWeight
      ensures k in keywords && FoundIn(k, jobText) ==> k in r.jd
      ensures k in r.jd <==> k in st.jd
    {
      MatchSectionEffect(st, section, keywords, extras, jobText, k);
    }
  }

  /**
   * Matching keeps `matched_keywords` and `jd_keywords` consistent and adds no
   * key to `jd_keywords`: a catalog match only overwrites a weight.
   */
  lemma {:induction false} MatchSectionsConsistent(st: MatchState, sections: seq<(Section, string)>, keywords: seq<string>,
                                                    extras: seq<string>, jobText: string)
    requires Consistent(st, keywords, extras, jobText)
    ensures var r := MatchSections(st, sections, keywords, extras, jobText);
      Consistent(r, keywords, extras, jobText) && r.jd.Keys == st.jd.Keys
    decreases |sections|
  {
    if sections != [] {
      var init := sections[..|sections| - 1];
      MatchSectionsConsistent(st, init, keywords, extras, jobText);
      MatchSectionConsistent(MatchSections(st, init, keywords, extras, jobText), sections[|sections| - 1],
                             keywords, extras, jobText);
    }
  }
}
