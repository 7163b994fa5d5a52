# Mistake-list scorer: a Dafny model

This project models the scoring core of `evaluate.py`. The scorer compares a gold-standard mistake list (GSML) with a submitted list of annotated mistakes and computes mistake-level recall and precision.

- **Rows.** Each row names a text, a sentence, an annotation id, the covered tokens, an inclusive token range `start..end` within the sentence, and a category.
- **Mistake table (`create_mistake_dict`).** Rows whose category passes the filter go into a nested table: text id → sentence id → start index → mistake record. Each level lists its keys in the order rows first name them. A row stored at an occupied position replaces the earlier one in place, but the count of accepted rows still grows.
- **Matcher (`match_mistake_dicts`).** It walks the gold table in insertion order.
  - A gold mistake is credited, for precision, with every submitted mistake of the same text and sentence whose token range meets it.
  - The first such submitted mistake not yet used in that sentence is credited for recall and becomes used.
  - The used set starts empty for every gold sentence.
  - Results are filed under `text_sentence_start`.
- **Scores (`calculate_recall_and_precision`).**
  - Recall is the number of recalled gold entries over the number of accepted gold rows.
  - Precision is the total number of precision matches over the number of accepted submitted rows.
  - A ratio with a zero denominator is `None`.
  - The code first asserts that the recall entries number the accepted gold rows.

The model follows `evaluate.py` as written:
- Indices are sentence-relative.
- Consumption is scoped to one sentence.
- A submitted mistake gets precision credit from every gold mistake it meets, even after it has been consumed for recall.
- There is no token-level scoring, no document-absolute index lookup and no duplicate-span rejection.
- Self-comparison gives recall 1 when at least one row is accepted, every accepted row has `start <= end` and no two share a position. It gives precision 1 under the same conditions when, in addition, no two mistakes of a sentence overlap. Overlapping gold mistakes credit each other, so without that proviso precision can exceed 1.

Modules:

- `Wrappers`: `Option` (Python's `None`) and `Result` (a failed `assert`).
- `Dicts`: Python's insertion-ordered `dict`, as a key order plus a map.
- `Keys`: positions `(text, sentence, start)` and the result-key string. `str` of an integer is modelled digit by digit, so the string provably determines the position.
- `MistakeDict`: the row filter and the table builder.
- `Matching`: the greedy matcher.
  - It is modelled as a log of outcomes, one per gold mistake in iteration order.
  - The two result dicts are that log assigned entry by entry.
  - It comes with a reference definition of the greedy assignment (`Assign`).
- `Scoring`: the counts, the assertion and the two ratios. Python's `/` is modelled as exact division of reals.

## Model

| member | source | states |
|---|---|---|
| MistakeDict.AllCategories | evaluate.py:20-21 | the six category labels, with no label listed twice |
| MistakeDict.Span | evaluate.py:57 | `set(range(start, end+1))` holds exactly the indices `i` with `start <= i <= end` |
| MistakeDict.SpanSize | evaluate.py:57 | the token set has `end - start + 1` elements, or none when `end < start` |
| MistakeDict.Accepted | evaluate.py:51-52 | a row passes the filter exactly when its category is in the list of categories |
| MistakeDict.AcceptedCounts | evaluate.py:51-64 | the filter keeps every occurrence of a row whose category is listed and no occurrence of any other row, so repeated rows are all counted |
| MistakeDict.Insert | evaluate.py:54-63 | creating the missing text and sentence levels and assigning the mistake keeps every level a well-formed ordered dict; a new text goes to the end of the text order and a present one keeps its place |
| MistakeDict.InsertTexts | evaluate.py:54 | the table gains the row's text and every other text is unchanged |
| MistakeDict.InsertSentenceKeys | evaluate.py:55 | in the row's text a new sentence goes to the end of the sentence order and a present one keeps its place |
| MistakeDict.InsertSentences | evaluate.py:55-56 | the row's text gains the row's sentence and every other sentence of it is unchanged |
| MistakeDict.InsertStarts | evaluate.py:56 | in the row's sentence a new start index goes to the end of the start order and a repeated one keeps its place |
| MistakeDict.InsertLookup | evaluate.py:54-63 | after the insertion the row's position holds the row's mistake, and every other position is unchanged |
| MistakeDict.CreateMistakeDict | evaluate.py:39-65 | the table is well formed at every level, and `num_mistakes` is the number of rows whose category passes the filter |
| MistakeDict.LastAcceptedIsLast | evaluate.py:51-56 | the row the table keeps for a position is an accepted row with that position, and no accepted row after it has that position |
| MistakeDict.BuildIgnoresRejected | evaluate.py:51-64 | dropping the rows of unlisted categories changes neither the table nor the count |
| MistakeDict.BuildLookup | evaluate.py:54-63 | each position holds the mistake of the last accepted row with that text, sentence and start, and is empty when no accepted row has it |
| MistakeDict.BuildKeySet | evaluate.py:54-64 | the positions holding a mistake are exactly the positions of the accepted rows |
| MistakeDict.BuildTextOrder | evaluate.py:41-56 | the table lists its texts in the order in which accepted rows first name them |
| MistakeDict.BuildSentenceOrder | evaluate.py:41-56 | each text lists its sentences in the order in which its accepted rows first name them; an absent text has none |
| MistakeDict.BuildStartOrder | evaluate.py:41-56 | each sentence lists its start indices in the order in which its accepted rows first name them, a repeated start keeping its first place; an absent sentence has none |
| Dicts.DedupOrder | evaluate.py:54-56 | in a first-occurrence listing, of two listed keys the earlier occurs in the input before any occurrence of the later |
| MistakeDict.EntryCount | evaluate.py:54-64 | the table holds at most `num_mistakes` mistakes, and exactly that many iff no two accepted rows share text, sentence and start |
| MistakeDict.CategoryCountsAddUp | evaluate.py:51-64 | for a list of distinct categories, the accepted rows number the sum of the rows accepted by each category alone |
| MistakeDict.AllCategoryCountsAddUp | evaluate.py:142 | the combined run over all six categories counts as many rows as the six single-category runs together |
| MistakeDict.EntryKeysExact | evaluate.py:77-81 | the nested loops visit each position of the table exactly once |
| Keys.ParseIntToString | evaluate.py:101-102 | reading back `str(n)` gives `n`, for every integer including negatives |
| Keys.KeyStringInjective | evaluate.py:101-102 | two positions with the same result key are the same position, even when text ids contain underscores |
| Matching.FirstFreshSpec | evaluate.py:85-99 | the chosen submission meets the gold mistake and is unused, and every earlier overlapping submission is used; no choice means every overlapping submission is used |
| Matching.ScanSpec | evaluate.py:85-99 | the inner loop credits precision to every overlapping submission whatever is used; recall is found iff the greedy choice exists, which alone becomes used |
| Matching.GreedySpec | evaluate.py:84-99 | the submission chosen for recall overlaps the gold mistake and was unused; when none is chosen, every overlapping submission was already used |
| Matching.ScanGoldPrecision | evaluate.py:84-89 | for one gold mistake the precision set is exactly the overlapping submissions of its sentence, whatever is already used |
| Matching.ScanGoldRecall | evaluate.py:85-99 | for one gold mistake recall is set iff the greedy choice exists, and the used set grows by that choice alone |
| Matching.MatchSentence | evaluate.py:81-102 | one outcome per gold mistake of the sentence, in the sentence's order, each at its own position |
| Matching.MatchSentencePrecision | evaluate.py:84-89 | each gold mistake's precision set is exactly the overlapping submissions of its sentence, independent of consumption, and recall implies that set is non-empty |
| Matching.MatchSentenceRecall | evaluate.py:80-99 | a gold mistake is recalled iff the greedy reference assignment gives it a submission; an absent sentence recalls nothing |
| Matching.MatchSentenceConsumes | evaluate.py:80-99 | the used set grows by exactly the submissions the greedy reference assignment consumes |
| Matching.MatchSentenceUsed | evaluate.py:80-99 | the used set only gains submissions of the same sentence, and gains exactly one per recalled gold mistake |
| Matching.AssignAt | evaluate.py:80-99 | the greedy choice for a gold mistake is the first overlapping submission outside those used initially and those given to earlier gold mistakes |
| Matching.AssignOnce | evaluate.py:80-99 | a submission is given to at most one gold mistake per sentence, it overlaps that mistake, and a gold mistake goes unmatched only when all its overlapping submissions were taken earlier |
| Matching.RecalledAtMostSubmitted | evaluate.py:80-99 | in one sentence no more gold mistakes are recalled than there are submitted mistakes in it |
| Matching.MatchMistakeDicts | evaluate.py:72-103 | both result dicts are well-formed ordered dicts |
| Matching.MatchLogKeys | evaluate.py:77-81 | the matcher produces exactly one outcome per gold mistake, in table order |
| Matching.MatchDictsItems | evaluate.py:101-102 | the recall dict and the precision dict each hold one entry per gold mistake, in table order, with that mistake's outcome |
| Matching.MatchDictsKeys | evaluate.py:101-102 | a result key is present in either dict iff the gold table holds a mistake at that position |
| Matching.MatchLogSound | evaluate.py:84-102 | every outcome is at a gold position; its precision set is the overlapping submitted starts of that text and sentence; recall implies a match; an absent sentence gives no recall and no precision |
| Matching.SelfMatchRecallsAll | evaluate.py:81-99 | matching a table against itself recalls every gold mistake when each covers a token |
| Matching.SelfMatchCreditsItself | evaluate.py:84-89 | matching a table against itself credits each mistake with itself alone when no two mistakes of a sentence share a token |
| Scoring.CalculateRecallAndPrecision | evaluate.py:110-129 | the assertion holds iff no two accepted gold rows share text, sentence and start, and when it fails the entries fall short of the row count; on success recall is `None` iff no gold row is accepted and precision `None` iff no submitted row is, a defined recall lies in [0, 1] and a defined precision is non-negative |
| Scoring.Ratio | evaluate.py:119-129 | the ratio is `None` iff the denominator is 0, and otherwise times the denominator gives the numerator |
| Scoring.CountTrueFalse | evaluate.py:116-117 | every recall entry is counted as correct or incorrect, exactly once |
| Scoring.RecallEntriesCount | evaluate.py:116-118 | correct plus incorrect recall entries number the gold mistakes in the table |
| Scoring.ScoresFromLog | evaluate.py:116-127 | recall is the recalled gold mistakes over the accepted gold rows; precision is the total precision matches over the accepted submitted rows |
| Scoring.SelfComparisonRecallOne | evaluate.py:110-122 | scoring a list against itself gives recall 1 when every accepted row has `start <= end`, no positions collide and some row is accepted |
| Scoring.SelfComparisonPrecisionOne | evaluate.py:124-129 | scoring a list against itself gives precision 1 when, in addition, no two accepted rows of a sentence have overlapping ranges |
| Scoring.PrecisionCanExceedOne | evaluate.py:84-127 | two one-token gold mistakes and one two-token submission covering both give recall 0.5 and precision 2.0 |

## Left out

- File handling: opening the CSV files, skipping the header, stripping `.txt` from text ids and the `int()` conversions (evaluate.py:35-49). The model takes already-parsed rows, so malformed rows are outside it.
- The `overlaps` list and `mean_overlap` (evaluate.py:75, 90, 131-135). They are a floating-point average that does not affect recall or precision.
- Floating point in general: `/` is modelled as exact division of reals, so rounding of the Python floats is not modelled.
- The module-level driver loop and its `print` calls (evaluate.py:142-152). Only the relation between the combined and single-category counts is modelled (`MistakeDict.AllCategoryCountsAddUp`).
- The unused variables `matches`, `gsml_tokens` and `submitted_tokens` (evaluate.py:34, 96-97), and the unused imports. They have no effect on the results.
- The `assert` at evaluate.py:118 is always evaluated here and becomes a `Failure`. Running Python with `-O` would skip it; that mode is not modelled.
- test_gsml.py: it reads a hard-coded external text file and joins its raw text, and has no scoring logic.
- Matching.RecalledAtMostSubmitted: the bound is stated per sentence and not summed over the whole table.
