/**
 * `section_weighted_score` (src/backend/services/scoring.py) end to end: the
 * job keywords, the section-by-section matching, the missing keywords with
 * their contexts and the aggregate scores, and what the whole computation
 * guarantees about them.
 */
module Scoring {
  import opened Text
  import opened Sections
  import opened JdKeywords
  import opened Matching
  import opened Missing
  import opened Aggregate
  import opened Wrappers

  /** The five values `section_weighted_score` returns (scores unrounded, dictionaries unsorted). */
  datatype ScoreBreakdown = ScoreBreakdown(
    avgScore: real,
    sectionScores: seq<real>,
    density: real,
    matched: map<string, Weight>,
    missing: map<string, (string, string)>)

  /** `matched_keywords` and `jd_keywords` after the matching loop. */
  function FinalState(sections: seq<(Section, string)>, jobText: string, keywords: seq<string>): MatchState {
    MatchSections(MatchState(map[], InitialJd(jobText, keywords)), sections, keywords,
                  ExtraKeywords(jobText, keywords), jobText)
  }

  /** What `section_weighted_score(resume_sections, job_text, keywords)` computes. */
  function ScoreOf(sections: seq<(Section, string)>, jobText: string, keywords: seq<string>): (r: ScoreBreakdown)
    ensures |r.sectionScores| == 4
    ensures 0.0 <= r.avgScore && 0.0 <= r.density
    ensures r.matched.Keys !! r.missing.Keys
  {
    var st := FinalState(sections, jobText, keywords);
    ScoreBreakdown(
      AvgScore(st.jd, st.matched),
      [SlotScore(st.jd, st.matched, 1), SlotScore(st.jd, st.matched, 2),
       SlotScore(st.jd, st.matched, 3), SlotScore(st.jd, st.matched, 4)],
      Density(st.jd, st.matched),
      st.matched,
      MissingContexts(st.jd, st.matched, jobText))
  }

  /**
   * Lines 109-193: the phases in order, computing `ScoreOf`. The average and
   * the density lie in [0, 1], the four slot percentages in [0, 100], and no
   * keyword is both matched and missing.
   */
  method SectionWeightedScore(sections: seq<(Section, string)>, jobText: string, keywords: seq<string>)
    returns (r: ScoreBreakdown)
    ensures r == ScoreOf(sections, jobText, keywords)
    ensures 0.0 <= r.avgScore <= 1.0 && 0.0 <= r.density <= 1.0
    ensures |r.sectionScores| == 4
    ensures forall i :: 0 <= i < 4 ==> 0.0 <= r.sectionScores[i] <= 100.0
    ensures r.matched.Keys !! r.missing.Keys
  {
    var extras, jd0 := BuildJdKeywords(jobText, keywords);
    var matched, jd := MatchKeywords(sections, jobText, keywords, extras, jd0);
    var missing := BuildMissing(jd, matched, jobText);
    var avgScore, sectionScores, density := AggregateScores(jd, matched);
    SlotList(sectionScores, jd, matched);
    r := ScoreBreakdown(avgScore, sectionScores, density, matched, missing);
    ScoreOfBounded(sections, jobText, keywords);
  }

  /** The scores `section_weighted_score` returns are bounded, and no keyword is both matched and missing. */
  lemma ScoreOfBounded(sections: seq<(Section, string)>, jobText: string, keywords: seq<string>)
    ensures var r := ScoreOf(sections, jobText, keywords);
      && 0.0 <= r.avgScore <= 1.0 && 0.0 <= r.density <= 1.0
      && |r.sectionScores| == 4
      && (forall i :: 0 <= i < 4 ==> 0.0 <= r.sectionScores[i] <= 100.0)
      && r.matched.Keys !! r.missing.Keys
  {
    var st := FinalState(sections, jobText, keywords);
    FinalConsistent(sections, jobText, keywords);
    ScoresBounded(st.jd, st.matched);
    SlotListBounded(st.jd, st.matched);
    MissingKeys(st.jd, st.matched, jobText);
  }

  /** Before matching, `jd_keywords` agrees with the (empty) matches and holds every job keyword. */
  lemma InitialConsistent(jobText: string, keywords: seq<string>)
    ensures Consistent(MatchState(map[], InitialJd(jobText, keywords)), keywords, ExtraKeywords(jobText, keywords), jobText)
  {
    InitialJdSpec(jobText, keywords);
  }

  /**
   * After matching, every matched keyword is a job keyword with the same
   * weight, and the job keywords are exactly the extra keywords and the
   * catalog keywords found in the job text.
   */
  lemma FinalConsistent(sections: seq<(Section, string)>, jobText: string, keywords: seq<string>)
    ensures var st := FinalState(sections, jobText, keywords);
      && Consistent(st, keywords, ExtraKeywords(jobText, keywords), jobText)
      && Agrees(st.jd, st.matched)
      && st.jd.Keys == (set k | k in ExtraKeywords(jobText, keywords)) + (set k | k in keywords && FoundIn(k, jobText))
  {
    InitialConsistent(jobText, keywords);
    InitialJdSpec(jobText, keywords);
    MatchSectionsConsistent(MatchState(map[], InitialJd(jobText, keywords)), sections, keywords,
                            ExtraKeywords(jobText, keywords), jobText);
  }

  /**
   * A keyword is matched exactly when some section hits it, at the weight of
   * the first such section; it is reported missing exactly when it is a job
   * keyword that no section hits.
   */
  lemma MatchedAndMissing(sections: seq<(Section, string)>, jobText: string, keywords: seq<string>, k: string)
    ensures var r := ScoreOf(sections, jobText, keywords);
      var extras := ExtraKeywords(jobText, keywords);
      && (k in r.matched <==> exists j :: 0 <= j < |sections| && SectionHit(k, sections[j], keywords, extras, jobText))
      && (forall j :: FirstHitAt(sections, keywords, extras, jobText, k, j) ==>
            k in r.matched && r.matched[k] == HitWeight(k, sections[j], keywords, jobText))
      && (k in r.missing <==> k in FinalState(sections, jobText, keywords).jd && k !in r.matched)
  {
    var extras := ExtraKeywords(jobText, keywords);
    MatchedIffHit(sections, keywords, extras, jobText, InitialJd(jobText, keywords), k);
    var st := FinalState(sections, jobText, keywords);
    MissingKeys(st.jd, st.matched, jobText);
  }

  // ---------------------------------------------------------------------------
  // Section weights on a segmented résumé

  /** `resume_sections.items()` for a dictionary built by `segment_sections`: insertion order. */
  function SectionItems(m: map<Section, string>): (items: seq<(Section, string)>)
    requires HasAllSections(m)
    ensures |items| == |SectionOrder|
    ensures forall j :: 0 <= j < |items| ==> items[j].0 == SectionOrder[j] && items[j].1 == m[SectionOrder[j]]
  {
    [(Experience, m[Experience]), (Education, m[Education]), (Skills, m[Skills]), (Other, m[Other])]
  }

  /** A catalog keyword no section contains stays unmatched. */
  lemma CatalogNoHit(m: map<Section, string>, jobText: string, keywords: seq<string>, k: string)
    requires HasAllSections(m)
    requires forall i :: 0 <= i < |SectionOrder| ==> !FoundIn(k, m[SectionOrder[i]])
    ensures k !in FinalState(SectionItems(m), jobText, keywords).matched
  {
    var items := SectionItems(m);
    var extras := ExtraKeywords(jobText, keywords);
    NoHitKeeps(MatchState(map[], InitialJd(jobText, keywords)), items, keywords, extras, jobText, k);
  }

  /**
   * The weight a catalog keyword receives from a dictionary built by
   * `segment_sections`: that of the first section, in the key order
   * EXPERIENCE (3), EDUCATION (2), SKILLS (4), OTHER (1), whose text
   * contains it, or none.
   */
  function FirstSectionWeight(m: map<Section, string>, k: string): Option<Weight>
    requires HasAllSections(m)
  {
    if FoundIn(k, m[Experience]) then Some(3)
    else if FoundIn(k, m[Education]) then Some(2)
    else if FoundIn(k, m[Skills]) then Some(4)
    else if FoundIn(k, m[Other]) then Some(1)
    else None
  }

  /** `FirstSectionWeight` names the first section of `SectionOrder` whose text contains the keyword. */
  lemma FirstSectionWeightAt(m: map<Section, string>, k: string, j: nat)
    requires HasAllSections(m)
    requires j < |SectionOrder| && FirstSectionWeight(m, k) == Some(SectionWeight(SectionOrder[j]))
    ensures FoundIn(k, m[SectionOrder[j]])
    ensures forall i :: 0 <= i < j ==> !FoundIn(k, m[SectionOrder[i]])
  {
    if j == 0 {
    } else if j == 1 {
    } else if j == 2 {
    } else {
    }
  }

  /** `FirstSectionWeight` is none only when no section contains the keyword. */
  lemma FirstSectionWeightNone(m: map<Section, string>, k: string)
    requires HasAllSections(m) && FirstSectionWeight(m, k) == None
    ensures forall i :: 0 <= i < |SectionOrder| ==> !FoundIn(k, m[SectionOrder[i]])
  {
  }

  /** The first section of `SectionOrder` whose text contains a catalog keyword gives it its weight. */
  lemma CatalogFirstHit(m: map<Section, string>, jobText: string, keywords: seq<string>, k: string, j: nat)
    requires HasAllSections(m)
    requires k in keywords && FoundIn(k, jobText)
    requires j < |SectionOrder| && FirstSectionWeight(m, k) == Some(SectionWeight(SectionOrder[j]))
    ensures var r := FinalState(SectionItems(m), jobText, keywords);
      k in r.matched && r.matched[k] == SectionWeight(SectionOrder[j])
  {
    var items := SectionItems(m);
    var extras := ExtraKeywords(jobText, keywords);
    FirstSectionWeightAt(m, k, j);
    assert FirstHitAt(items, keywords, extras, jobText, k, j);
    FirstHitWins(MatchState(map[], InitialJd(jobText, keywords)), items, keywords, extras, jobText, k, j);
  }

  /**
   * On a dictionary holding the four sections in `segment_sections`' order
   * (as `SegmentSections` always returns), a catalog keyword found in the
   * job text is matched exactly at `FirstSectionWeight`, even when it is
   * also an extra keyword: EXPERIENCE (3) wins over SKILLS (4) although SKILLS
   * carries the larger weight, and a keyword no section contains stays
   * unmatched.
   */
  lemma CatalogWeightBySectionOrder(m: map<Section, string>, jobText: string, keywords: seq<string>, k: string)
    requires HasAllSections(m)
    requires k in keywords && FoundIn(k, jobText)
    ensures var r := FinalState(SectionItems(m), jobText, keywords);
      match FirstSectionWeight(m, k)
      case Some(w) => k in r.matched && r.matched[k] == w
      case None => k !in r.matched
  {
    match FirstSectionWeight(m, k)
    case Some(w) =>
      var j := if w == 3 then 0 else if w == 2 then 1 else if w == 4 then 2 else 3;
      assert SectionWeight(SectionOrder[j]) == w;
      CatalogFirstHit(m, jobText, keywords, k, j);
    case None =>
      FirstSectionWeightNone(m, k);
      CatalogNoHit(m, jobText, keywords, k);
  }

  /** An extra keyword found in any section is matched at the SKILLS weight, whichever section it is in. */
  lemma ExtraOnlyWeight(sections: seq<(Section, string)>, jobText: string, keywords: seq<string>, k: string, j: nat)
    requires k !in keywords && k in ExtraKeywords(jobText, keywords)
    requires j < |sections| && FoundIn(k, sections[j].1)
    ensures var r := FinalState(sections, jobText, keywords);
      k in r.matched && r.matched[k] == SkillsWeight && k in r.jd && r.jd[k] == SkillsWeight
  {
    var extras := ExtraKeywords(jobText, keywords);
    MatchedIffHit(sections, keywords, extras, jobText, InitialJd(jobText, keywords), k);
    var first := FirstHit(sections, keywords, extras, jobText, k);
    FinalConsistent(sections, jobText, keywords);
  }

  /** An empty résumé matches nothing: every score is zero and every job keyword is missing. */
  lemma EmptyResumeScoresZero(jobText: string, keywords: seq<string>)
    ensures var r := ScoreOf(SectionItems(Segmented("")), jobText, keywords);
      && r.matched == map[]
      && r.avgScore == 0.0 && r.density == 0.0
      && r.sectionScores == [0.0, 0.0, 0.0, 0.0]
      && r.missing.Keys == InitialJd(jobText, keywords).Keys
  {
    var items := SectionItems(Segmented(""));
    var extras := ExtraKeywords(jobText, keywords);
    var st0 := MatchState(map[], InitialJd(jobText, keywords));
    assert Segmented("") == EmptySections;
    forall k
      ensures k !in FinalState(items, jobText, keywords).matched
      ensures k in FinalState(items, jobText, keywords).jd <==> k in st0.jd
    {
      forall j | 0 <= j < |items|
        ensures !SectionHit(k, items[j], keywords, extras, jobText)
      {
        if FoundIn(k, items[j].1) {
          FoundInNotBlank(k, items[j].1);
        }
      }
      NoHitKeeps(st0, items, keywords, extras, jobText, k);
    }
    var st := FinalState(items, jobText, keywords);
    assert st.matched == map[];
    NothingMatchedScoresZero(st.jd);
    MissingKeys(st.jd, st.matched, jobText);
  }
}
