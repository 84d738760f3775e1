# resume-analyser scoring core in Dafny

This project models the deterministic keyword-scoring engine of
resume-analyser (`src/backend/services/scoring.py`) together with the plain
set-overlap scorer of `app/utils.py`, and proves properties of the model.

The engine scores a résumé against a job description in five phases:

- **Segmenting** (`segment_sections`): the résumé is cut into EXPERIENCE,
  EDUCATION, SKILLS and OTHER by header lines, and each section's lines are
  joined with the `%nl%` delimiter.
- **Job keywords**: the "extra" keywords (job-text words with two or more
  upper-case letters that are not catalog entries) and the catalog keywords
  found in the job text, all at the SKILLS weight (4).
- **Matching**: in each non-blank section, a catalog keyword found both in
  the section and in the job text is matched at the section's weight, and an
  extra keyword found in the section is matched at weight 4. The first match
  is kept.
- **Missing keywords**: every unmatched job keyword, reported with up to three
  job-text tokens on each side of its first token-level occurrence.
- **Aggregation**: per-weight slot percentages, the weighted average and the
  keyword density.

The AI-skill score (`calculate_ai_score`) and the `%nl%` split in
`get_weighted_score` are modelled as well.

Each module corresponds to one part of the source:

| module | file | models |
|---|---|---|
| `Text` | text.dfy | `str.lower`, `str.split()`, `strip`, `splitlines`, `split(sep)`/`join`, and the regex `\b kw \b` test |
| `Tokenizer` | tokenizer.dfy | `tokenize` |
| `Occurrences` | occurrences.dfy | `find_keyword_occurrences`, `extract_context` |
| `Sections` | sections.dfy | `INFO_CATEGORIES`, `segment_sections`, the `%nl%` split |
| `JdKeywords` | keywords.dfy | the extra keywords and the initial `jd_keywords` |
| `Matching` | matching.dfy | the matching loops |
| `Missing` | missing.dfy | `missing_keywords` |
| `Aggregate` | aggregate.dfy | the slot sums and scores |
| `Scoring` | scoring.dfy | `section_weighted_score` end to end |
| `AiScore` | aiscore.dfy | `calculate_ai_score` |
| `SimpleMatch` | simplematch.dfy | `extract_keywords`, `match_score` of app/utils.py |
| `Sets`, `Wrappers` | sets.dfy, wrappers.dfy | shared helpers |

Python's loops that update lists and dictionaries become Dafny methods with
loops. Each is proved equal to a specification function, and the properties
are lemmas about those functions. Dictionaries become `map`s, floats become
`real`s, and texts are ASCII strings.

Three consequences of the code as written are kept by the model:

- **Matching order.** The matching loop (scoring.py:138) visits the sections
  in the key order of the dictionary built at scoring.py:51 (EXPERIENCE,
  EDUCATION, SKILLS, OTHER), not in the header-priority order of
  scoring.py:19-32 (SKILLS first). So a catalog keyword mentioned under both
  EXPERIENCE and SKILLS gets weight 3, not 4
  (`Scoring.CatalogWeightBySectionOrder`).
- **The `%nl%` split does not always undo the join.** Splitting at
  scoring.py:272-275 cuts a stored line that contains `%nl%`, or that ends
  with `%nl` and is not the section's last line, in the wrong place
  (`Text.SplitOnJoinNeedsCondition`). The round trip holds for lines
  without that shape (`Sections.SplitGivesStoredLines`).
- **`jd_keywords` is never returned.** The key-sorted copy of `jd_keywords`
  made at scoring.py:190 is not used again; scoring.py:193 returns only
  `matched_keywords` (key-sorted at line 191) and `missing_keywords`.

## Model

| member | source | states |
|---|---|---|
| Text.Lower | src/backend/services/scoring.py:88 | lower-casing keeps the length, turns each upper-case ASCII letter into its lower-case counterpart (code + 32), leaves no upper-case letter and keeps every other character |
| Text.CountUpper | src/backend/services/scoring.py:124 | the count of upper-case letters is at most the word's length, is 0 exactly when the word has no upper-case letter, and is 1 or 0 for a single character as it is upper-case or not |
| Text.CountUpperAppend | src/backend/services/scoring.py:124 | the count of a concatenation is the sum of the counts, so every upper-case character counts exactly once |
| Text.Words | src/backend/services/scoring.py:88 | every piece of `str.split()` is non-empty and free of whitespace |
| Text.WordsOfBlank | src/backend/services/scoring.py:88 | an all-whitespace text splits into no words |
| Text.WordsAppend | src/backend/services/scoring.py:88 | a whitespace character separates: the words of `a + c + b` are those of `a` followed by those of `b` |
| Text.WordsOfLines | src/backend/services/scoring.py:122-123 | the words of each line, concatenated, are the words of the whole text |
| Text.WordsOfTrailingBreak | src/backend/services/scoring.py:122-123 | a final empty line adds no word |
| Text.BlankIffAllSpace | src/backend/services/scoring.py:139 | `text.strip()` is empty exactly when every character is whitespace |
| Text.StripEnds | src/backend/services/scoring.py:56 | a stripped line is a contiguous slice of the line with only whitespace before and after it; it neither starts nor ends with whitespace, and a line without whitespace at either end is unchanged |
| Text.StripSlice | src/backend/services/scoring.py:56 | the stripped line sits at the offset of the left strip, and everything before and after it is whitespace |
| Text.StripLeftEnds | src/backend/services/scoring.py:56 | the left strip removes a prefix made only of whitespace, and what remains does not start with whitespace |
| Text.StripRightEnds | src/backend/services/scoring.py:56 | the right strip removes a suffix made only of whitespace, and what remains does not end with whitespace |
| Text.SplitOn | src/backend/services/scoring.py:273 | `split(sep)` always returns at least one part |
| Text.JoinSplitOn | src/backend/services/scoring.py:272-275 | joining the parts of a split with the separator gives back the text, for every text |
| Text.SplitOnJoin | src/backend/services/scoring.py:272-275 | splitting a join gives back the parts when no part contains the separator early |
| Text.SplitOnJoinNeedsCondition | src/backend/services/scoring.py:65 | the lines `a%nl` and `b`, joined with `%nl%`, split into `a` and `nl%b` |
| Text.WordsJoin | src/backend/services/scoring.py:104-105 | splitting a space-join of words gives back the words |
| Text.SplitLines | src/backend/services/scoring.py:53 | an empty text has no lines |
| Text.SplitLinesJoin | src/backend/services/scoring.py:53 | no line contains a line break, and the lines joined with `\n` give back the text without its final line break |
| Text.SplitOnNoSeparator | src/backend/services/scoring.py:53 | no part of a split on a one-character separator contains that character |
| Text.JoinSnoc | src/backend/services/scoring.py:65 | appending a line to a non-empty join adds the delimiter and the line |
| Text.WholeWordNotInBlank | src/backend/services/scoring.py:133-134 | a `\b kw \b` hit needs a word character in the text |
| Text.Boundary | src/backend/services/scoring.py:133-134 | `\b` holds at the start of a text iff its first character is a word character, at the end iff its last one is, and between two characters exactly when one is a word character and the other is not |
| Text.WholeWordIn | src/backend/services/scoring.py:133-134 | a whole-word hit needs a keyword no longer than the text |
| Text.FoundIn | src/backend/services/scoring.py:133-134 | a case-insensitive whole-word hit needs a keyword no longer than the text |
| Text.FoundInItself | src/backend/services/scoring.py:133-134 | a non-empty keyword of word characters is found in a text equal to it up to case |
| Text.FoundInNotBlank | src/backend/services/scoring.py:139-146 | a text with a whole-word hit is not blank, so skipping blank sections loses no match |
| Text.JavaNotInJavascript | src/backend/services/scoring.py:133-134 | `java` has no whole-word hit in `javascript` but has one in `java and javascript` |
| Tokenizer.KeepAlnum | src/backend/services/scoring.py:87 | the result is made of ASCII letters and digits taken from the input and is no longer than it; a single character is kept exactly when it is a letter or digit |
| Tokenizer.KeepAlnumCounts | src/backend/services/scoring.py:87 | every letter or digit is kept as many times as it occurs, and every other character is dropped |
| Tokenizer.KeepAlnumAppend | src/backend/services/scoring.py:87 | the deletion distributes over concatenation, so the kept characters stay in input order |
| Tokenizer.Tokenize | src/backend/services/scoring.py:84-90 | every token is non-empty and made of `a-z` and `0-9` only |
| Tokenizer.TokenizeWord | src/backend/services/scoring.py:84-90 | a whitespace-free unit gives one token, the lower-cased unit with every character outside `a-z0-9` deleted, or no token when nothing is left; with TokenizeAppend this fixes the tokens of every text |
| Tokenizer.TokenizePunctuated | src/backend/services/scoring.py:87 | punctuation is deleted, not the word: `C++` tokenizes to `["c"]` |
| Tokenizer.TokenizeAppend | src/backend/services/scoring.py:84-90 | the tokens of two texts joined by whitespace are the tokens of each, in order |
| Tokenizer.TokenizeBlank | src/backend/services/scoring.py:84-90 | an empty or all-whitespace text has no tokens |
| Tokenizer.TokenizeToken | src/backend/services/scoring.py:84-90 | a token tokenizes to itself |
| Tokenizer.TokenizeJoin | src/backend/services/scoring.py:84-90 | tokens joined by single spaces tokenize back to the same tokens |
| Tokenizer.TokenizeIdempotent | src/backend/services/scoring.py:84-90 | tokenizing the space-join of a text's tokens gives the same tokens |
| Occurrences.OccurrencesFrom | src/backend/services/scoring.py:95-97 | from a start index on, exactly the matching indices, strictly increasing |
| Occurrences.FindKeywordOccurrences | src/backend/services/scoring.py:92-97 | exactly the indices where the keyword's tokens appear, strictly increasing; none when the keyword is longer than the text |
| Occurrences.FirstOccurrenceIsLeast | src/backend/services/scoring.py:92-97 | the first index reported is a match and no later than any match |
| Occurrences.BeforeTokens | src/backend/services/scoring.py:101-104 | at most three tokens, exactly the ones right before the match |
| Occurrences.AfterTokens | src/backend/services/scoring.py:102-105 | at most three tokens, exactly the ones right after the keyword |
| Occurrences.ExtractContext | src/backend/services/scoring.py:99-107 | a match at index 0 has an empty before-context, and a match whose keyword reaches the end of the tokens has an empty after-context |
| Occurrences.ContextSplitsBack | src/backend/services/scoring.py:99-107 | splitting each context string on whitespace gives back its window of tokens |
| Occurrences.ContextWindowBound | src/backend/services/scoring.py:99-107 | each side holds `min(3, tokens available)` tokens, adjacent to the match |
| Sections.FirstHeader | src/backend/services/scoring.py:58-62 | the section found is in the list and has a header phrase in the line; when none is found, no section of the list has one |
| Sections.FirstHeaderAt | src/backend/services/scoring.py:58-62 | the section found is the first of the list with a header phrase: one with a phrase, preceded by none, is the result |
| Sections.HeaderOf | src/backend/services/scoring.py:59 | a header line has fewer than five words and a phrase of the section chosen, which is never OTHER; a short line that is not a header has no phrase of any section |
| Sections.HeaderRule | src/backend/services/scoring.py:58-62 | a line is a header iff it has fewer than five words and a header phrase; SKILLS, EXPERIENCE, EDUCATION are tried in that order; OTHER is never chosen |
| Sections.EmptySectionsComplete | src/backend/services/scoring.py:51 | the initial dictionary has all four sections |
| Sections.Step | src/backend/services/scoring.py:55-65 | one line keeps all four sections present; a header line moves the cursor to its section, any other line leaves it |
| Sections.StepCases | src/backend/services/scoring.py:56-65 | a header line changes only the cursor; any other line, stripped, is appended to the cursor's section and the cursor stays |
| Sections.SegmentLines | src/backend/services/scoring.py:55-65 | the line loop keeps all four sections present |
| Sections.LineHeadersAt | src/backend/services/scoring.py:56-59 | the header result recorded for each line is that of the stripped line |
| Sections.SegmentLinesCursor | src/backend/services/scoring.py:52-62 | the cursor after the lines is determined by the lines' header results alone |
| Sections.CursorAtLastHeader | src/backend/services/scoring.py:52-62 | after the lines, the cursor is the section of the last header line |
| Sections.CursorWithoutHeader | src/backend/services/scoring.py:52 | with no header line, the cursor stays at OTHER |
| Sections.FindHeader | src/backend/services/scoring.py:57-62 | the inner loop with its `break` finds a header exactly when the header rule does, and the same section |
| Sections.Segmented | src/backend/services/scoring.py:49-66 | the segmentation has all four sections |
| Sections.SegmentSections | src/backend/services/scoring.py:49-66 | the loop computes the segmentation function, and the result has exactly the four sections |
| Sections.HeaderLinesNotStored | src/backend/services/scoring.py:59-65 | a header line is never stored in a section |
| Sections.DropLeadingEmpty | src/backend/services/scoring.py:64 | the kept lines are stored lines, and the first one is not empty |
| Sections.DropLeadingEmptySnoc | src/backend/services/scoring.py:64-65 | an empty line read while the section is still empty is absorbed; any other line is kept |
| Sections.JoinNonEmpty | src/backend/services/scoring.py:64 | a join whose first line is non-empty is non-empty |
| Sections.StepText | src/backend/services/scoring.py:55-65 | a line changes only the cursor's section, and only when it is not a header |
| Sections.JoinAppendLine | src/backend/services/scoring.py:64-65 | storing a line equals joining the stored lines with that line added |
| Sections.SectionTextIsJoin | src/backend/services/scoring.py:63-65 | each section's text is its stored lines, without the leading empty ones, joined by `%nl%` |
| Sections.SplitSections | src/backend/services/scoring.py:272-275 | the split keeps the four section keys |
| Sections.NlSafeNoEarlyDelimiter | src/backend/services/scoring.py:65 | a line that neither contains `%nl%` nor ends with `%nl` cannot be mistaken for part of a delimiter |
| Sections.SplitGivesStoredLines | src/backend/services/scoring.py:272-275 | splitting a section's text on `%nl%` gives back its stored lines, or `[""]` when nothing was stored |
| JdKeywords.CollectExtraKeywords | src/backend/services/scoring.py:121-125 | the nested loop collects exactly the extra keywords of the specification function |
| JdKeywords.ExtrasOfWordsAppend | src/backend/services/scoring.py:122-125 | the extras of concatenated word lists are the concatenated extras |
| JdKeywords.FlattenSnoc | src/backend/services/scoring.py:122-123 | flattening the lines' words with one more line appends that line's words |
| JdKeywords.ExtrasOfLinesFlatten | src/backend/services/scoring.py:122-125 | the extras of the lines are the extras of all their words, in order |
| JdKeywords.ExtraKeywordsOfWords | src/backend/services/scoring.py:122-125 | scanning line by line finds the same extras, in the same order, as scanning every word of the text |
| JdKeywords.ExtrasOfWordsMembership | src/backend/services/scoring.py:123-125 | a string is an extra iff it is the lower-cased form of some listed word with ≥2 upper-case letters that is not in the catalog |
| JdKeywords.ExtraKeywordsMembership | src/backend/services/scoring.py:122-125 | `k` is an extra keyword iff some word of the job text has ≥2 upper-case letters, is not in the catalog as written, and lower-cases to `k` |
| JdKeywords.BuildJdKeywords | src/backend/services/scoring.py:121-135 | the loops compute the extras and the initial `jd_keywords` of the specification functions |
| JdKeywords.WithExtrasSpec | src/backend/services/scoring.py:127-129 | the keys are exactly the extras, all at weight 4 |
| JdKeywords.AddCatalogSpec | src/backend/services/scoring.py:131-135 | adds exactly the catalog keywords with a whole-word hit in the job text, at weight 4; other entries are unchanged |
| JdKeywords.InitialJdSpec | src/backend/services/scoring.py:121-135 | `jd_keywords` holds exactly the extras and the catalog keywords found in the job text, all at weight 4 |
| Matching.MatchKeywords | src/backend/services/scoring.py:137-153 | the nested loops compute the matching fold over the sections |
| Matching.CatalogPassEffect | src/backend/services/scoring.py:144-148 | an unmatched catalog keyword found in the section and in the job text gets the section weight in both maps; every other key is unchanged |
| Matching.ExtraPassEffect | src/backend/services/scoring.py:149-153 | an unmatched extra found in the section gets weight 4 in `matched`; `jd_keywords` and every other key are unchanged |
| Matching.MatchSectionEffect | src/backend/services/scoring.py:138-153 | one section leaves a keyword alone unless it is unmatched and hits the section; then it gets the hit's weight, and a catalog hit writes the same weight into `jd_keywords` |
| Matching.MatchedIsSticky | src/backend/services/scoring.py:146-152 | a matched keyword keeps its weight through all later sections |
| Matching.NoHitKeeps | src/backend/services/scoring.py:137-153 | a keyword that hits no section is unchanged in both maps |
| Matching.FirstHitWins | src/backend/services/scoring.py:137-153 | an unmatched keyword gets the weight of the first section it hits |
| Matching.MatchedIffHit | src/backend/services/scoring.py:137-153 | from nothing matched: a keyword is matched iff some section hits it, at the weight of the first such section |
| Matching.FirstHit | src/backend/services/scoring.py:138 | a keyword that hits some section has a least such section |
| Matching.MatchSectionConsistent | src/backend/services/scoring.py:137-153 | one section keeps the two maps consistent and adds no key to `jd_keywords` |
| Matching.MatchSectionsConsistent | src/backend/services/scoring.py:137-153 | matched keys are job keys with equal weights, unmatched extras stay at weight 4, and `jd_keywords` keeps its key set |
| Missing.CollectContexts | src/backend/services/scoring.py:163-167 | one context per occurrence, in occurrence order |
| Missing.ContextsOfAdd | src/backend/services/scoring.py:158-172 | taking one more key adds its context exactly when it is unmatched |
| Missing.BuildMissing | src/backend/services/scoring.py:155-172 | the loop computes the missing-keyword map of the specification function |
| Missing.MissingKeys | src/backend/services/scoring.py:158-160 | the missing keys are exactly the job keys that were not matched |
| Missing.MissingContextAtFirst | src/backend/services/scoring.py:165-170 | a missing keyword that occurs gets the context of its least occurrence |
| Missing.MissingContextEmpty | src/backend/services/scoring.py:171-172 | a missing keyword whose tokens never occur gets two empty strings |
| Missing.ContextOf | src/backend/services/scoring.py:165-172 | a keyword with no occurrence, or with more tokens than the job text, gets two empty strings |
| Missing.TokensAreWords | src/backend/services/scoring.py:84-90 | every token is a whitespace-free word |
| Missing.ContextOfWindow | src/backend/services/scoring.py:165-170 | splitting each side of the reported context on whitespace gives the `min(3, available)` job tokens next to the first occurrence |
| Missing.MissingContextIsContextOf | src/backend/services/scoring.py:158-172 | an unmatched job keyword is reported, with the context of its first token-level occurrence or two empty strings |
| Aggregate.CountOfAdd | src/backend/services/scoring.py:177-178 | one more key raises the count of its own weight by one and no other count |
| Aggregate.SlotOfAdd | src/backend/services/scoring.py:178 | one more key adds its weight to its own slot only |
| Aggregate.TallyStep | src/backend/services/scoring.py:177-179 | one more key adds its weight to its slot and to the total, and nothing to other slots |
| Aggregate.Tally | src/backend/services/scoring.py:177-182 | slot `w-1` is `w` times the number of keys of weight `w`; the total is the sum of the slots |
| Aggregate.AggregateScores | src/backend/services/scoring.py:174-188 | the four slot percentages, the average and the density of the specification functions |
| Aggregate.Ratio | src/backend/services/scoring.py:185-188 | `a / max(b, 1)` is non-negative, is `a` itself when `b` is 0 or 1, and is zero exactly when `a` is |
| Aggregate.SlotScore | src/backend/services/scoring.py:185 | a slot percentage is non-negative and is zero exactly when nothing matched at that weight |
| Aggregate.AvgScore | src/backend/services/scoring.py:187 | the average is non-negative; with no job keywords it is the matched weight itself |
| Aggregate.Density | src/backend/services/scoring.py:188 | the density is non-negative and zero exactly when nothing matched; with no job keywords it is the number of matches |
| Aggregate.RatioBounds | src/backend/services/scoring.py:185-188 | `a / max(b, 1)` lies in [0, 1] when `a <= b`, and is 1 when `a == b > 0` |
| Aggregate.SlotMonotone | src/backend/services/scoring.py:177-182 | when matches agree with `jd_keywords`, each matched slot sum is at most the job slot sum |
| Aggregate.ScoresBounded | src/backend/services/scoring.py:184-188 | when matches agree with `jd_keywords`, each slot percentage lies in [0, 100] and the average and the density in [0, 1] |
| Aggregate.SlotListBounded | src/backend/services/scoring.py:184-185 | the four slot percentages, in slot order, each lie in [0, 100] |
| Aggregate.NothingMatchedScoresZero | src/backend/services/scoring.py:184-188 | with nothing matched, every score is 0 |
| Aggregate.CountOfAtMost | src/backend/services/scoring.py:177-178 | a weight count is at most the number of keys |
| Aggregate.CountsPartition | src/backend/services/scoring.py:177-178 | the four weight counts add up to the number of keys |
| Aggregate.TotalBounds | src/backend/services/scoring.py:177-182 | the total weight lies between the number of keys and four times it |
| Aggregate.AvgPositiveIffMatched | src/backend/services/scoring.py:187-188 | the average is positive iff something matched, and so is the density |
| Aggregate.EverythingMatched | src/backend/services/scoring.py:184-188 | when every job keyword is matched at its weight, the average and the density are 1 and each non-empty slot is 100 |
| Scoring.SectionWeightedScore | src/backend/services/scoring.py:109-193 | the phases compute the score function; the average and the density lie in [0, 1], the four slot scores in [0, 100], and no keyword is both matched and missing |
| Scoring.ScoreOf | src/backend/services/scoring.py:109-193 | there are four slot scores, the average and the density are non-negative, and no keyword is both matched and missing |
| Scoring.ScoreOfBounded | src/backend/services/scoring.py:184-193 | the average and the density lie in [0, 1], the four slot scores in [0, 100], and no keyword is both matched and missing |
| Scoring.InitialConsistent | src/backend/services/scoring.py:127-135 | before matching, `jd_keywords` holds every catalog keyword found in the job text and every extra at weight 4 |
| Scoring.FinalConsistent | src/backend/services/scoring.py:127-153 | after matching, every matched keyword is a job keyword with the same weight, and the job keys are exactly the extras and the catalog keywords found in the job text |
| Scoring.MatchedAndMissing | src/backend/services/scoring.py:137-172 | a keyword is matched iff some section hits it, at the weight of the first such section; it is missing iff it is an unmatched job keyword |
| Scoring.SectionItems | src/backend/services/scoring.py:51 | the sections are listed in the dictionary's key order EXPERIENCE, EDUCATION, SKILLS, OTHER, each with its text |
| Scoring.CatalogFirstHit | src/backend/services/scoring.py:138-148 | a catalog keyword takes the weight of the first section, in key order, whose text contains it |
| Scoring.CatalogNoHit | src/backend/services/scoring.py:137-153 | a catalog keyword that no section contains stays unmatched |
| Scoring.CatalogWeightBySectionOrder | src/backend/services/scoring.py:138-148 | a catalog keyword found in the job text is matched at `FirstSectionWeight`: 3 if EXPERIENCE contains it, otherwise 2 for EDUCATION, then 4 for SKILLS, then 1 for OTHER; if no section contains it, it is unmatched |
| Scoring.FirstSectionWeightAt | src/backend/services/scoring.py:51 | a first-section weight names a section that contains the keyword, and no earlier section in key order contains it |
| Scoring.ExtraOnlyWeight | src/backend/services/scoring.py:149-153 | an extra keyword (not in the catalog) found in any section is matched at weight 4 and keeps weight 4 in `jd_keywords` |
| Scoring.EmptyResumeScoresZero | src/backend/services/scoring.py:137-188 | an empty résumé matches nothing: all scores are 0 and every job keyword is missing |
| AiScore.Normalize | src/backend/services/scoring.py:203-205 | the set holds the lower-cased form of every listed skill and nothing else, has no upper-case letter, and is empty exactly when the list is |
| AiScore.AiScoreOf | src/backend/services/scoring.py:200-236 | no required skills give 0; without nice-to-have skills the score is the percentage of required skills hit |
| AiScore.CheckRequired | src/backend/services/scoring.py:211-217 | the hit count is the size of the intersection; `matched` holds the required skills the résumé has and `missing` those it lacks |
| AiScore.CheckNice | src/backend/services/scoring.py:220-224 | the hit count and the matched list are the nice-to-have skills the résumé has |
| AiScore.CalculateAiScore | src/backend/services/scoring.py:195-238 | no required skills gives 0 and two empty lists; otherwise `matched` holds the required skills and the nice-to-have skills the résumé has (a skill in both counted twice), `missing` holds the required skills it lacks, and the score is the 80/20 (or 100/0) blend |
| AiScore.PercentBounds | src/backend/services/scoring.py:230-233 | a hit percentage lies in [0, 100] and is 100 when everything hits |
| AiScore.AiScoreBounds | src/backend/services/scoring.py:198 | the score lies between 0 and 100 |
| AiScore.AiScoreFull | src/backend/services/scoring.py:226-236 | a résumé with every required and nice-to-have skill, in any case, scores 100 |
| AiScore.AiScoreNone | src/backend/services/scoring.py:226-236 | a résumé with none of the skills scores 0 |
| AiScore.MultisetOfAdd | src/backend/services/scoring.py:215 | appending a new skill adds one occurrence |
| AiScore.SkillStep | src/backend/services/scoring.py:212-224 | one more skill grows the matched part by one if the résumé has it, and the missing part by one otherwise |
| AiScore.MissingOnlyRequired | src/backend/services/scoring.py:212-217 | every reported missing skill is a required skill the résumé lacks; a nice-to-have-only skill is never missing |
| SimpleMatch.ExtractKeywords | app/utils.py:8-11 | every keyword is three or more lower-case letters |
| SimpleMatch.MatchScore | app/utils.py:13-19 | the call fails with a division by zero exactly when the job text has no keywords |
| SimpleMatch.MatchPartition | app/utils.py:16-18 | the overlap and the missing keywords are disjoint and together make up the job keywords; the overlap is shared with the résumé, and missing keywords are absent from it |
| SimpleMatch.PercentOfWhole | app/utils.py:17 | a part of a non-empty whole, as a percentage, lies in [0, 100] and the whole is 100 |
| SimpleMatch.MatchScoreBounds | app/utils.py:17 | the score lies between 0 and 100 |
| SimpleMatch.SelfMatch | app/utils.py:13-19 | a text with keywords scored against itself gives 100, all keywords shared, none missing |
| SimpleMatch.LowerIdempotent | app/utils.py:10 | lower-casing twice is lower-casing once |
| SimpleMatch.ExtractIgnoresCase | app/utils.py:10 | a text and its lower-cased form have the same keywords |
| SimpleMatch.LetterWordExtracted | app/utils.py:10 | a run of three or more lower-case letters between two spaces is a keyword |
| SimpleMatch.GluedRunNotExtracted | app/utils.py:10 | `python3` yields no keyword: a letter run glued to a digit has no word boundary |

## Left out

- spaCy: the noun-chunk `extract_keywords` and `semantic_match_score` of scoring.py (lines 9-16 and 68-82), and the model download, depend on an external pretrained model and on floating-point vector similarity.
- `get_keywords_list` reads JSON files; the catalog is a parameter (`keywords: seq<string>`).
- `get_weighted_score` is modelled only for its `%nl%` split. Its blending of the legacy, semantic and AI scores, its rounding and its `print` calls are orchestration and output.
- `round(·, 2)` is not modelled: all scores are exact, unrounded `real`s, and Python's floating-point division is modelled as exact real division.
- The key-sorting of the returned `matched_keywords` (line 191) is not modelled, because a `map` has no order. The insertion order of `missing_keywords` is not modelled either, and the dead sort of `jd_keywords` (line 190) has no effect.
- AiScore.CalculateAiScore: the order of `matched` and `missing` comes from iterating a Python set and is not modelled; the contract states their contents as multisets.
- Unicode: texts are modelled as ASCII. `str.lower`, `str.isupper`, `str.split()`, `\w`/`\b` and `[a-zA-Z]` are stated for ASCII characters. Non-ASCII letters, which Python treats as word characters, are not modelled.
- Text.SplitLines: `str.splitlines` is modelled as splitting on `\n` only; the other line boundaries (`\r`, `\r\n`, `\v`, `\f`, `\x1c`-`\x1e`, `\x85`, U+2028, U+2029) are not modelled.
- The general regular-expression engine is not modelled. Only the shapes the code uses are: `\b` + escaped literal + `\b`, `[^a-zA-Z0-9]` deletion and `\b[a-zA-Z]{3,}\b`, each stated directly as a predicate.
- `resume_sections` is modelled with the four section names only. A key outside INFO_CATEGORIES would get the default weight 1, the same as OTHER.
- Occurrences.ExtractContext: only the default `window=3` is modelled, since no caller passes another value.
- Sections.SplitGivesStoredLines: proved only for stored lines that neither contain `%nl%` nor end with `%nl`; other lines split differently, as Text.SplitOnJoinNeedsCondition shows.
- Scoring.CatalogWeightBySectionOrder: stated for any section dictionary with the four keys listed in `segment_sections`' order, which `Sections.SegmentSections` always returns.
- `extract_pdf_text` and the rest of the repository (the parser service, the web application, the routes and templates) wrap libraries and I/O and are not part of this model.
