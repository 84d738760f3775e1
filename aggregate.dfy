/**
 * The aggregation phase of `section_weighted_score`
 * (src/backend/services/scoring.py): per-weight slot sums for `jd_keywords`
 * and `matched_keywords`, the per-slot percentages, the weighted average and
 * the keyword density. Floating-point division is modelled by `real`
 * division; rounding is not modelled.
 */
module Aggregate {
  import opened Sections
  import opened Sets

  /** How many of `keys` carry weight `w` in `m`. */
  function CountOf(m: map<string, Weight>, keys: set<string>, w: Weight): nat {
    |set k | k in keys && k in m && m[k] == w|
  }

  /** The weight `w` summed over the keys of `keys` that carry it. */
  function SlotOf(m: map<string, Weight>, keys: set<string>, w: Weight): nat {
    w * CountOf(m, keys, w)
  }

  /** The sum of all weights over `keys`, one slot after the other. */
  function TotalOf(m: map<string, Weight>, keys: set<string>): nat {
    SlotOf(m, keys, 1) + SlotOf(m, keys, 2) + SlotOf(m, keys, 3) + SlotOf(m, keys, 4)
  }

  /** `section_scores_jd[w-1]` / `section_scores_res[w-1]` once the loop is done. */
  function Slot(m: map<string, Weight>, w: Weight): nat {
    SlotOf(m, m.Keys, w)
  }

  /** `jd_weight` / `resume_weight`: the sum of all weights of the dictionary. */
  function Total(m: map<string, Weight>): nat {
    TotalOf(m, m.Keys)
  }

  lemma CountOfAdd(m: map<string, Weight>, keys: set<string>, kw: string, w: Weight)
    requires kw in m && kw !in keys
    ensures CountOf(m, keys + {kw}, w) == CountOf(m, keys, w) + (if m[kw] == w then 1 else 0)
  {
    var a := set k | k in keys && k in m && m[k] == w;
    var b := set k | k in keys + {kw} && k in m && m[k] == w;
    if m[kw] == w {
      assert b == a + {kw};
    } else {
      assert b == a;
    }
  }

  lemma SlotOfAdd(m: map<string, Weight>, keys: set<string>, kw: string, w: Weight)
    requires kw in m && kw !in keys
    ensures SlotOf(m, keys + {kw}, w) == SlotOf(m, keys, w) + (if m[kw] == w then w else 0)
  {
    CountOfAdd(m, keys, kw, w);
  }

  /** Adding one key adds its weight to its own slot and to the total, and nothing to the other slots. */
  lemma TallyStep(m: map<string, Weight>, keys: set<string>, kw: string)
    requires kw in m && kw !in keys
    ensures forall w: Weight :: SlotOf(m, keys + {kw}, w) == SlotOf(m, keys, w) + (if m[kw] == w then w else 0)
    ensures TotalOf(m, keys + {kw}) == TotalOf(m, keys) + m[kw]
  {
    forall w: Weight
      ensures SlotOf(m, keys + {kw}, w) == SlotOf(m, keys, w) + (if m[kw] == w then w else 0)
    {
      SlotOfAdd(m, keys, kw, w);
    }
  }

  /** The four slots hold the slot sums of the keys in `keys`. */
  predicate SlotsOf(slots: seq<nat>, m: map<string, Weight>, keys: set<string>) {
    && |slots| == 4
    && slots[0] == SlotOf(m, keys, 1) && slots[1] == SlotOf(m, keys, 2)
    && slots[2] == SlotOf(m, keys, 3) && slots[3] == SlotOf(m, keys, 4)
  }

  /** The state of the tally loop once the keys of `done` are counted and those of `todo` remain. */
  predicate TallyInv(m: map<string, Weight>, todo: set<string>, done: set<string>, slots: seq<nat>, total: nat) {
    && todo + done == m.Keys && todo !! done
    && SlotsOf(slots, m, done)
    && total == TotalOf(m, done)
  }

  /** One iteration of the tally loop: adding the key's weight to its slot and to the total keeps the state exact. */
  lemma TallySlots(m: map<string, Weight>, todo: set<string>, done: set<string>, slots: seq<nat>, total: nat, kw: string)
    requires TallyInv(m, todo, done, slots, total) && kw in todo
    ensures var w := m[kw];
      TallyInv(m, todo - {kw}, done + {kw}, if w > 0 then slots[w - 1 := slots[w - 1] + w] else slots, total + w)
  {
    TallyStep(m, done, kw);
  }

  /**
   * The loop of lines 177-179 (or 180-182): every weight is added to its slot
   * of a four-element list and to the running total.
   */
  method Tally(m: map<string, Weight>) returns (slots: seq<nat>, total: nat)
    ensures |slots| == 4
    ensures forall w: Weight :: slots[w - 1] == Slot(m, w)
    ensures total == Total(m)
  {
    slots := [0, 0, 0, 0];
    total := 0;
    var todo := m.Keys;
    ghost var done: set<string> := {};
    TallyEmpty(m);
    while todo != {}
      invariant TallyInv(m, todo, done, slots, total)
      decreases |todo|
    {
      var kw :| kw in todo;
      var wgt := m[kw];
      TallySlots(m, todo, done, slots, total, kw);
      if wgt > 0 {
        slots := slots[wgt - 1 := slots[wgt - 1] + wgt];
      }
      total := total + wgt;
      todo := todo - {kw};
      done := done + {kw};
    }
    assert done == m.Keys;
  }

  /** Before the loop: no key, every slot and the total are zero. */
  lemma TallyEmpty(m: map<string, Weight>)
    ensures SlotsOf([0, 0, 0, 0], m, {}) && TotalOf(m, {}) == 0
  {
    var none: set<string> := {};
    CountOfAtMost(m, none, 1);
    CountOfAtMost(m, none, 2);
    CountOfAtMost(m, none, 3);
    CountOfAtMost(m, none, 4);
  }

  /** `num / max(den, 1)` in real arithmetic. */
  function Ratio(num: nat, den: nat): (r: real)
    ensures 0.0 <= r
    ensures den <= 1 ==> r == num as real
    ensures r == 0.0 <==> num == 0
  {
    num as real / (if den >= 1 then den else 1) as real
  }

  /** `section_scores[w-1]` before rounding. */
  function SlotScore(jd: map<string, Weight>, matched: map<string, Weight>, w: Weight): (r: real)
    ensures 0.0 <= r
    ensures r == 0.0 <==> Slot(matched, w) == 0
  {
    Ratio(Slot(matched, w), Slot(jd, w)) * 100.0
  }

  /** `avg_score`: matched weight over job weight. */
  function AvgScore(jd: map<string, Weight>, matched: map<string, Weight>): (r: real)
    ensures 0.0 <= r
    ensures jd == map[] ==> r == Total(matched) as real
  {
    Ratio(Total(matched), Total(jd))
  }

  /** `density`: matched keywords over job keywords. */
  function Density(jd: map<string, Weight>, matched: map<string, Weight>): (r: real)
    ensures 0.0 <= r
    ensures r == 0.0 <==> |matched| == 0
    ensures jd == map[] ==> r == |matched| as real
  {
    Ratio(|matched|, |jd|)
  }

  /** Lines 174-188: both tallies, the four slot percentages, the average and the density. */
  method AggregateScores(jd: map<string, Weight>, matched: map<string, Weight>)
    returns (avgScore: real, sectionScores: seq<real>, density: real)
    ensures |sectionScores| == 4
    ensures forall w: Weight :: sectionScores[w - 1] == SlotScore(jd, matched, w)
    ensures avgScore == AvgScore(jd, matched)
    ensures density == Density(jd, matched)
  {
    var jdSlots, jdWeight := Tally(jd);
    var resSlots, resumeWeight := Tally(matched);
    var scores := new real[4](_ => 0.0);
    for k := 0 to 4
      invariant forall j :: 0 <= j < k ==> scores[j] == SlotScore(jd, matched, j + 1)
    {
      var w: Weight := k + 1;
      assert resSlots[w - 1] == Slot(matched, w) && jdSlots[w - 1] == Slot(jd, w);
      scores[k] := Ratio(resSlots[k], jdSlots[k]) * 100.0;
    }
    sectionScores := scores[..];
    avgScore := Ratio(resumeWeight, jdWeight);
    density := Ratio(|matched|, |jd|);
  }

  // ---------------------------------------------------------------------------
  // Properties of the scores

  lemma RatioBounds(num: nat, den: nat)
    requires num <= den
    ensures 0.0 <= Ratio(num, den) <= 1.0
    ensures num == den && den > 0 ==> Ratio(num, den) == 1.0
  {
    var d := (if den >= 1 then den else 1) as real;
    var r := Ratio(num, den);
    assert r * d == num as real;
    assert num as real <= d;
    if num == den && den > 0 {
      assert Ratio(num, den) == d / d;
    }
  }

  /** Every matched keyword is a job keyword with the same weight. */
  predicate Agrees(jd: map<string, Weight>, matched: map<string, Weight>) {
    forall k :: k in matched ==> k in jd && jd[k] == matched[k]
  }

  lemma SlotMonotone(jd: map<string, Weight>, matched: map<string, Weight>, w: Weight)
    requires Agrees(jd, matched)
    ensures Slot(matched, w) <= Slot(jd, w)
  {
    var a := set k | k in matched.Keys && k in matched && matched[k] == w;
    var b := set k | k in jd.Keys && k in jd && jd[k] == w;
    assert a <= b;
    SubsetCard(a, b);
  }

  /**
   * When every matched keyword agrees with `jd_keywords`, each slot
   * percentage lies in [0, 100] and the average and the density lie in [0, 1].
   */
  lemma ScoresBounded(jd: map<string, Weight>, matched: map<string, Weight>)
    requires Agrees(jd, matched)
    ensures forall w: Weight :: 0.0 <= SlotScore(jd, matched, w) <= 100.0
    ensures 0.0 <= AvgScore(jd, matched) <= 1.0
    ensures 0.0 <= Density(jd, matched) <= 1.0
  {
    forall w: Weight
      ensures 0.0 <= SlotScore(jd, matched, w) <= 100.0
    {
      SlotMonotone(jd, matched, w);
      RatioBounds(Slot(matched, w), Slot(jd, w));
    }
    SlotMonotone(jd, matched, 1);
    SlotMonotone(jd, matched, 2);
    SlotMonotone(jd, matched, 3);
    SlotMonotone(jd, matched, 4);
    RatioBounds(Total(matched), Total(jd));
    SubsetCard(matched.Keys, jd.Keys);
    RatioBounds(|matched|, |jd|);
  }

  /** Nothing matched: every score is zero. */
  lemma NothingMatchedScoresZero(jd: map<string, Weight>)
    ensures forall w: Weight :: SlotScore(jd, map[], w) == 0.0
    ensures AvgScore(jd, map[]) == 0.0 && Density(jd, map[]) == 0.0
  {
    var none: map<string, Weight> := map[];
    TotalBounds(none);
    forall w: Weight
      ensures CountOf(none, none.Keys, w) == 0
    {
      CountOfAtMost(none, none.Keys, w);
    }
  }

  lemma CountOfAtMost(m: map<string, Weight>, keys: set<string>, w: Weight)
    ensures CountOf(m, keys, w) <= |keys|
  {
    var hits := set k | k in keys && k in m && m[k] == w;
    SubsetCard(hits, keys);
  }

  /** The keys of `keys` split by weight: the four counts add up to the number of keys. */
  lemma {:induction false} CountsPartition(m: map<string, Weight>, keys: set<string>)
    requires keys <= m.Keys
    ensures CountOf(m, keys, 1) + CountOf(m, keys, 2) + CountOf(m, keys, 3) + CountOf(m, keys, 4) == |keys|
    decreases |keys|
  {
    if keys == {} {
      CountOfAtMost(m, keys, 1);
      CountOfAtMost(m, keys, 2);
      CountOfAtMost(m, keys, 3);
      CountOfAtMost(m, keys, 4);
    } else {
      var x :| x in keys;
      var rest := keys - {x};
      CountsPartition(m, rest);
      assert rest + {x} == keys;
      CountOfAdd(m, rest, x, 1);
      CountOfAdd(m, rest, x, 2);
      CountOfAdd(m, rest, x, 3);
      CountOfAdd(m, rest, x, 4);
    }
  }

  /** Every weight is between 1 and 4, so the total lies between the number of keys and four times it. */
  lemma TotalBounds(m: map<string, Weight>)
    ensures |m| <= Total(m) <= 4 * |m|
  {
    CountsPartition(m, m.Keys);
  }

  /** Four values indexed by weight are the list of the four slot percentages. */
  lemma SlotList(ss: seq<real>, jd: map<string, Weight>, matched: map<string, Weight>)
    requires |ss| == 4 && forall w: Weight :: ss[w - 1] == SlotScore(jd, matched, w)
    ensures ss == [SlotScore(jd, matched, 1), SlotScore(jd, matched, 2),
                   SlotScore(jd, matched, 3), SlotScore(jd, matched, 4)]
  {
    assert ss[0] == SlotScore(jd, matched, 1);
    assert ss[1] == SlotScore(jd, matched, 2);
    assert ss[2] == SlotScore(jd, matched, 3);
    assert ss[3] == SlotScore(jd, matched, 4);
  }

  /** The four slot percentages, in slot order, each lie in [0, 100]. */
  lemma SlotListBounded(jd: map<string, Weight>, matched: map<string, Weight>)
    requires Agrees(jd, matched)
    ensures var ss := [SlotScore(jd, matched, 1), SlotScore(jd, matched, 2),
                       SlotScore(jd, matched, 3), SlotScore(jd, matched, 4)];
      forall i :: 0 <= i < 4 ==> 0.0 <= ss[i] <= 100.0
  {
    ScoresBounded(jd, matched);
  }

  /** The average is positive exactly when the density is: both when something matched. */
  lemma AvgPositiveIffMatched(jd: map<string, Weight>, matched: map<string, Weight>)
    ensures AvgScore(jd, matched) > 0.0 <==> |matched| > 0
    ensures Density(jd, matched) > 0.0 <==> |matched| > 0
  {
    TotalBounds(matched);
  }

  /** Everything matched: the average and the density are 1, each non-empty slot is at 100. */
  lemma EverythingMatched(jd: map<string, Weight>)
    requires |jd| > 0
    ensures AvgScore(jd, jd) == 1.0 && Density(jd, jd) == 1.0
    ensures forall w: Weight :: Slot(jd, w) > 0 ==> SlotScore(jd, jd, w) == 100.0
  {
    TotalBounds(jd);
    RatioBounds(Total(jd), Total(jd));
    RatioBounds(|jd|, |jd|);
    forall w: Weight | Slot(jd, w) > 0
      ensures SlotScore(jd, jd, w) == 100.0
    {
      RatioBounds(Slot(jd, w), Slot(jd, w));
    }
  }
}
