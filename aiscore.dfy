/**
 * `calculate_ai_score` (src/backend/services/scoring.py): strict,
 * case-insensitive matching of extracted skill lists. Required skills count
 * for 80% and nice-to-have skills for 20% of the score, or required skills
 * for all of it when there are no nice-to-have skills. The two returned
 * lists are built by iterating over sets, so the model gives them as
 * sequences whose order is left open and states their contents as multisets.
 */
module AiScore {
  import opened Text
  import opened Aggregate
  import opened Sets

  /** `{s.lower() for s in skills}`. */
  function Normalize(skills: seq<string>): (r: set<string>)
    ensures forall s :: s in skills ==> Lower(s) in r
    ensures forall x :: x in r ==> exists s :: s in skills && x == Lower(s)
    ensures forall x, i :: x in r && 0 <= i < |x| ==> !IsUpper(x[i])
    ensures r == {} <==> skills == []
  {
    assert skills != [] ==> Lower(skills[0]) in set s | s in skills :: Lower(s);
    set s | s in skills :: Lower(s)
  }

  /** `hits / total * 100` for a non-empty total. */
  function Percent(hits: nat, total: nat): real
    requires total > 0
  {
    hits as real / total as real * 100.0
  }

  /** The score `calculate_ai_score` returns, before rounding. */
  function AiScoreOf(resumeSkills: seq<string>, required: seq<string>, nice: seq<string>): (r: real)
    ensures required == [] ==> r == 0.0
    ensures required != [] && nice == [] ==>
      r == Percent(|Normalize(required) * Normalize(resumeSkills)|, |Normalize(required)|)
  {
    if required == [] then 0.0
    else
      var skills := Normalize(resumeSkills);
      var req := Normalize(required);
      var opt := Normalize(nice);
      assert Lower(required[0]) in req;
      var reqScore := Percent(|req * skills|, |req|);
      if opt == {} then reqScore
      else reqScore * 0.8 + Percent(|opt * skills|, |opt|) * 0.2
  }

  /** Adding a new element to a set adds one occurrence to its multiset. */
  lemma MultisetOfAdd(a: set<string>, x: string)
    requires x !in a
    ensures multiset(a + {x}) == multiset(a) + multiset{x}
  {
  }

  /** Taking one more skill into account: a hit grows the intersection by it, a miss grows the difference. */
  lemma SkillStep(done: set<string>, skills: set<string>, x: string)
    requires x !in done
    ensures x in skills ==>
      && |(done + {x}) * skills| == |done * skills| + 1
      && multiset((done + {x}) * skills) == multiset(done * skills) + multiset{x}
      && (done + {x}) - skills == done - skills
    ensures x !in skills ==>
      && (done + {x}) * skills == done * skills
      && multiset((done + {x}) - skills) == multiset(done - skills) + multiset{x}
  {
    if x in skills {
      assert (done + {x}) * skills == done * skills + {x};
      MultisetOfAdd(done * skills, x);
    } else {
      assert (done + {x}) * skills == done * skills;
      assert (done + {x}) - skills == (done - skills) + {x};
      MultisetOfAdd(done - skills, x);
    }
  }

  /** Lines 211-217: one pass over the required skills, counting hits and sorting each into a list. */
  method CheckRequired(req: set<string>, skills: set<string>) returns (hits: nat, matched: seq<string>, missing: seq<string>)
    ensures hits == |req * skills|
    ensures multiset(matched) == multiset(req * skills)
    ensures multiset(missing) == multiset(req - skills)
  {
    hits := 0;
    matched := [];
    missing := [];
    var todo := req;
    ghost var done: set<string> := {};
    while todo != {}
      invariant todo + done == req && todo !! done
      invariant hits == |done * skills|
      invariant multiset(matched) == multiset(done * skills)
      invariant multiset(missing) == multiset(done - skills)
      decreases |todo|
    {
      var r :| r in todo;
      SkillStep(done, skills, r);
      if r in skills {
        hits := hits + 1;
        matched := matched + [r];
      } else {
        missing := missing + [r];
      }
      todo := todo - {r};
      done := done + {r};
    }
    assert done == req;
  }

  /** Lines 220-224: one pass over the nice-to-have skills, counting and listing hits. */
  method CheckNice(opt: set<string>, skills: set<string>) returns (hits: nat, matched: seq<string>)
    ensures hits == |opt * skills|
    ensures multiset(matched) == multiset(opt * skills)
  {
    hits := 0;
    matched := [];
    var todo := opt;
    ghost var done: set<string> := {};
    while todo != {}
      invariant todo + done == opt && todo !! done
      invariant hits == |done * skills|
      invariant multiset(matched) == multiset(done * skills)
      decreases |todo|
    {
      var n :| n in todo;
      SkillStep(done, skills, n);
      if n in skills {
        hits := hits + 1;
        matched := matched + [n];
      }
      todo := todo - {n};
      done := done + {n};
    }
    assert done == opt;
  }

  /**
   * Lines 195-238. With no required skills: 0 and two empty lists. Otherwise
   * `matched` holds every required skill and every nice-to-have skill the
   * résumé has (a skill in both lists appears twice), `missing` every required
   * skill the résumé lacks, all lower-cased, and the score is `AiScoreOf`.
   */
  method CalculateAiScore(resumeSkills: seq<string>, required: seq<string>, nice: seq<string>)
    returns (score: real, matched: seq<string>, missing: seq<string>)
    ensures required == [] ==> score == 0.0 && matched == [] && missing == []
    ensures required != [] ==>
      var skills := Normalize(resumeSkills);
      && multiset(matched) == multiset(Normalize(required) * skills) + multiset(Normalize(nice) * skills)
      && multiset(missing) == multiset(Normalize(required) - skills)
    ensures score == AiScoreOf(resumeSkills, required, nice)
  {
    if required == [] {
      return 0.0, [], [];
    }
    var skills := Normalize(resumeSkills);
    var req := Normalize(required);
    var opt := Normalize(nice);
    var requiredHits, requiredMatched, requiredMissing := CheckRequired(req, skills);
    var niceHits, niceMatched := CheckNice(opt, skills);
    matched := requiredMatched + niceMatched;
    missing := requiredMissing;
    assert Lower(required[0]) in req;
    var reqScore := requiredHits as real / |req| as real * 100.0;
    if |opt| > 0 {
      var niceScore := niceHits as real / |opt| as real * 100.0;
      score := reqScore * 0.8 + niceScore * 0.2;
    } else {
      score := reqScore;
    }
  }

  lemma PercentBounds(hits: nat, total: nat)
    requires 0 < total && hits <= total
    ensures 0.0 <= Percent(hits, total) <= 100.0
    ensures hits == total ==> Percent(hits, total) == 100.0
  {
    RatioBounds(hits, total);
    assert Percent(hits, total) == Ratio(hits, total) * 100.0;
  }

  /** The score lies between 0 and 100. */
  lemma AiScoreBounds(resumeSkills: seq<string>, required: seq<string>, nice: seq<string>)
    ensures 0.0 <= AiScoreOf(resumeSkills, required, nice) <= 100.0
  {
    if required != [] {
      var skills := Normalize(resumeSkills);
      var req := Normalize(required);
      var opt := Normalize(nice);
      assert Lower(required[0]) in req;
      SubsetCard(req * skills, req);
      PercentBounds(|req * skills|, |req|);
      if opt != {} {
        SubsetCard(opt * skills, opt);
        PercentBounds(|opt * skills|, |opt|);
      }
    }
  }

  /** A résumé with every required and every nice-to-have skill (in any case) scores 100. */
  lemma AiScoreFull(resumeSkills: seq<string>, required: seq<string>, nice: seq<string>)
    requires required != []
    requires Normalize(required) <= Normalize(resumeSkills) && Normalize(nice) <= Normalize(resumeSkills)
    ensures AiScoreOf(resumeSkills, required, nice) == 100.0
  {
    var skills := Normalize(resumeSkills);
    var req := Normalize(required);
    var opt := Normalize(nice);
    assert Lower(required[0]) in req;
    assert req * skills == req;
    assert opt * skills == opt;
    PercentBounds(|req|, |req|);
    if opt != {} {
      PercentBounds(|opt|, |opt|);
    }
  }

  /** A résumé with none of the skills scores 0. */
  lemma AiScoreNone(resumeSkills: seq<string>, required: seq<string>, nice: seq<string>)
    requires Normalize(required) !! Normalize(resumeSkills) && Normalize(nice) !! Normalize(resumeSkills)
    ensures AiScoreOf(resumeSkills, required, nice) == 0.0
  {
    if required != [] {
      var skills := Normalize(resumeSkills);
      var req := Normalize(required);
      var opt := Normalize(nice);
      assert Lower(required[0]) in req;
      assert req * skills == {};
      assert Percent(|req * skills|, |req|) == 0.0;
      if opt != {} {
        assert opt * skills == {};
        assert Percent(|opt * skills|, |opt|) == 0.0;
      }
    }
  }

  /**
   * The missing list names only required skills the résumé lacks: a skill
   * listed only as nice-to-have is never reported missing, and a skill the
   * résumé has never is.
   */
  lemma MissingOnlyRequired(resumeSkills: seq<string>, required: seq<string>, nice: seq<string>,
                            missing: seq<string>, s: string)
    requires required != []
    requires multiset(missing) == multiset(Normalize(required) - Normalize(resumeSkills))
    requires s in missing
    ensures s in Normalize(required) && s !in Normalize(resumeSkills)
  {
    assert s in multiset(missing);
  }
}
