# Assessment analysis view, modelled in Dafny

This project models the analysis engine of the training-management dashboard's analysis
page (`analysis(request, category, schedule_id)`). Given the latest pre-assessment,
post-assessment and feedback spreadsheets of a training schedule, the view does the following:

- It rejects an unknown category.
- For an assessment category with both uploads, it computes the following:
  - the improvement rate on total points (the share of students present in both uploads who scored higher afterwards);
  - the item difficulty index (IDI) of every points column, with a traffic-light status;
  - the grouped improvement and Hake's normalized gain, combined and per test date, when both uploads have a start-time column;
  - the table of students who took only one of the two assessments.
- It refuses to go on when the category's own upload is missing.
- For the feedback category, it finds the four rating columns `F1`…`F4` and averages the weighted rating of every respondent.

Spreadsheets are `Tables.Frame`s: header texts and rows of cells. A cell is empty, a
number, a text or a timestamp. `pd.merge` on the identifier column is `Join.JoinPairs`, an
inner join by equal text keys. The exceptions that the view's catch-all handler turns into
a redirect are modelled as an `Err` of `Base.Result`, except those listed under
"## Left out". Examples are a missing column and a comparison of a number with a text.
The helpers the view imports from elsewhere sit in `Hooks.Hooks` as
function parameters, and so do the date parsers and `float(text)`. These helpers are
`detect_question_and_points_columns` and `extract_question_text`. Every contract holds for
every choice of them.

The modules follow the view's structure:

- `text` and `tables`: Python string methods and header matching.
- `join`: the merge.
- `improvement`, `idi`, `grouped` and `gain`: the four chart computations.
- `dates`: `extract_date`.
- `missing`: the missing-assessment table.
- `feedback`: the feedback rating.
- `english`: the two English-label helpers defined at the top of the view.
- `analysis`: the view end to end.

Supporting modules are `dict` (insertion-ordered dictionaries), `rounding` (Python's
`round`), `sorting` (`sorted(set(...))`) and `stats` (sum, mean, max).

## Model

Source paths are relative to the repository root.

| member | source | states |
|---|---|---|
| Analysis.Analysis | dashboard/templates/dashboard/analysis_view.py:9-14 | An unknown category is rejected, whatever the uploads. A known category without its own upload gives the no-file error. Otherwise the view succeeds exactly when the pre/post block does (when it runs), and its charts are exactly the charts that block computes. Charts and the missing table exist only for an assessment category with both uploads. Only the feedback category has a feedback report, and it is the feedback analysis of its upload. |
| Analysis.PrePost | dashboard/templates/dashboard/analysis_view.py:48-54 | Without a `pers no` header in the pre-assessment upload the block leaves every chart unset and succeeds. With one, the block is the scored analysis on that header: it succeeds exactly when that analysis does and gives its charts, and improvement rates are always reported. |
| Analysis.PersNo | dashboard/templates/dashboard/analysis_view.py:49-53 | The identifier column is the first pre-assessment header whose lower-cased text contains `pers no`, and there is none exactly when no header does. |
| Analysis.PostId | dashboard/templates/dashboard/analysis_view.py:59-61 | Casting the post-assessment identifier column succeeds exactly when the post-assessment upload has the pre-assessment identifier header, and it names that header. |
| Analysis.Scored | dashboard/templates/dashboard/analysis_view.py:54-196 | The block succeeds exactly when the post-assessment identifier cast succeeds and the analysis on both identifier columns does, and it is that analysis. Its only improvement rate is `Total Points`, and that value is the improvement rate of the total-points merge. There is an IDI table exactly when some points column is common to both uploads. The grouped and gain charts exist exactly when both uploads have a start-time column. |
| Analysis.ScoredAt | dashboard/templates/dashboard/analysis_view.py:63-196 | Once both identifier columns are known, the analysis succeeds exactly when the per-column step and the total-points step do. The IDI table is the per-column step's table. The rates are exactly `{'Total Points': rate}` with the rate of the total-points merge. The grouped and gain charts are those of the total-points step. |
| Analysis.WithTotals | dashboard/templates/dashboard/analysis_view.py:153-196 | The IDI table computed earlier is passed through unchanged. The step succeeds exactly when the total-points step does. The rates become exactly `{'Total Points': rate}`, replacing all per-question rates, and the grouped and gain charts are the total-points step's. |
| Analysis.ScoreColumns | dashboard/templates/dashboard/analysis_view.py:78-80 | Selecting a column for the merge succeeds exactly when both uploads have that header, and it names that header on each side. |
| Analysis.MatchingQuestions | dashboard/templates/dashboard/analysis_view.py:69 | A question column is matched exactly when the detection lists it as a question column of both uploads. |
| Analysis.MatchingPoints | dashboard/templates/dashboard/analysis_view.py:96 | A points column is matched exactly when the detection lists it as a points column of both uploads. |
| Analysis.FirstMissing | dashboard/templates/dashboard/analysis_view.py:78-79 | The first matching question that is not a header of the upload, or nothing exactly when every matching question is one. |
| Analysis.SelectQuestions | dashboard/templates/dashboard/analysis_view.py:78-80 | Selecting `[pers_no_col] + matching_questions` on both uploads succeeds exactly when every matching question is a header of both. Otherwise it fails on a missing matching question, and on one missing from the pre-assessment upload whenever there is such a question. |
| Analysis.CheckedRates | dashboard/templates/dashboard/analysis_view.py:76-93 | Without matching questions nothing is computed. Otherwise the block succeeds exactly when every question passes the per-question loop, and a missing question column fails the selection before any score is compared. |
| Analysis.QuestionRates | dashboard/templates/dashboard/analysis_view.py:76-93 | The per-question loop succeeds exactly when every matching question is a header of both uploads and all of its valid score pairs can be ordered. The resulting dictionary has unique keys. |
| Analysis.IdiStep | dashboard/templates/dashboard/analysis_view.py:100-138 | One points column fails exactly when it is missing from either upload. Otherwise `idi_data[key]` becomes `Idi.Entry` of that column's merge on the identifier, every other key reads as before, and every stored entry stays sound: correct answers ≤ answers, indices in [0, 100], improvement in [-100, 100], status computed from the stored indices. |
| Analysis.IdiTable | dashboard/templates/dashboard/analysis_view.py:96-151 | The IDI loop fails exactly when some matching points column is missing from either upload. On success its keys are unique and every entry is sound. |
| Analysis.IdiTableKeys | dashboard/templates/dashboard/analysis_view.py:100-102 | The IDI table's keys are exactly the question texts of the points columns, with `Points -` replaced by `Que -`. |
| Analysis.IdiTableUnfold | dashboard/templates/dashboard/analysis_view.py:100-138 | A successful IDI loop is a successful first iteration followed by the loop over the remaining columns. |
| Analysis.IdiKey | dashboard/templates/dashboard/analysis_view.py:102 | The key of a points column without `Points -` is the question text of the column itself. For a column `Points -x` where `x` has no further `Points -`, it is the question text of `Que -x`. |
| Analysis.IdiKeys | dashboard/templates/dashboard/analysis_view.py:102 | One key per points column, in order, each the question text of that column. |
| Analysis.IdiTableValues | dashboard/templates/dashboard/analysis_view.py:100-138 | After the IDI loop, each key holds the `Idi.Entry` of the last points column that maps to it (a later column with the same key overwrites it), and a key no column maps to reads as before the loop. |
| Analysis.IdiKeysTail | dashboard/templates/dashboard/analysis_view.py:100-102 | The keys of the later points columns are keys of the whole list. |
| Analysis.LastWithKeyTail | dashboard/templates/dashboard/analysis_view.py:100-130 | A column that is last with its key is still last among the later columns, and the first column, when last with its key, has no key among the later columns. |
| Analysis.EntrySound | dashboard/templates/dashboard/analysis_view.py:115-151 | Every IDI entry the view computes is sound, whatever the cells. |
| Analysis.PutSound | dashboard/templates/dashboard/analysis_view.py:130 | Storing a sound entry keeps every entry of the table sound. |
| Analysis.TotalColumns | dashboard/templates/dashboard/analysis_view.py:154-179 | The total-points merge works exactly when both uploads have a header that reads `total points` after strip and lower-casing, and the two first such headers are the same text (otherwise the suffixed columns do not exist). The columns used are those first such headers. |
| Analysis.Totals | dashboard/templates/dashboard/analysis_view.py:172-196 | The step succeeds exactly when the total-points headers are found, the improvement count over their merge succeeds and the dated charts succeed. The reported rate is the improvement rate of the total-points merge, a percentage. The grouped and gain charts are exactly the dated charts of that merge's columns, and they exist exactly when both start-time columns do. |
| Analysis.StartTimes | dashboard/templates/dashboard/analysis_view.py:207-216 | The start-time columns are the first headers of each upload whose lower-cased text contains `start time`. They are found exactly when both uploads have such a header. |
| Analysis.SplitOf | dashboard/templates/dashboard/analysis_view.py:246-254 | The date split keeps both uploads and the total-points columns. Its faculty column is the first pre-assessment header containing `faculty name`, or none exactly when no header does. It has one extracted date per row of each upload, read from the start-time cell of that row. |
| Analysis.DateCharts | dashboard/templates/dashboard/analysis_view.py:206-221 | Without start-time columns on both sides, no dated chart is computed and nothing fails. With them, the step succeeds exactly when both the grouped improvement and the normalized gain succeed on the date split of the uploads, and it reports exactly those two charts. |
| Analysis.PerColumn | dashboard/templates/dashboard/analysis_view.py:63-151 | The step succeeds exactly when every matching question passes the per-question loop and every matching points column is a header of both uploads. The IDI table exists exactly when some points column is common to both uploads. Its keys are exactly the question keys of those points columns, unique. Under each key sits the `Idi.Entry` of the last points column with that key, and every entry is sound. When a matching question column is missing from either upload, the step fails with exactly the selection's error, before any per-question comparison. |
| Analysis.MissingLookup | dashboard/templates/dashboard/analysis_view.py:417-427 | `find_col` for `persno` and `employeename`: the first header whose lower-cased text without spaces contains the term, or none exactly when no header does. |
| Dict.Put | dashboard/templates/dashboard/analysis_view.py:130-138 | `d[k] = v`: afterwards `k` reads `v` and every other key reads as before. An existing key keeps its position; a new key is appended. Unique keys stay unique. |
| Dict.Find | dashboard/templates/dashboard/analysis_view.py:130 | The position of the first entry with the key, or `None` exactly when no entry has it. |
| Dict.FindExtend | dashboard/templates/dashboard/analysis_view.py:130 | Appending an entry with another key does not move a key's lookup. |
| Dict.FindFresh | dashboard/templates/dashboard/analysis_view.py:130 | A key that was absent is found at the end after it is appended. |
| Dict.FindUpdate | dashboard/templates/dashboard/analysis_view.py:151 | Overwriting a value in place does not move any key's lookup. |
| Counting.CountSnoc | dashboard/templates/dashboard/analysis_view.py:86-88 | Appending an entry to a boolean mask adds one to its `.sum()` exactly when the entry is true. |
| Counting.CountCons | dashboard/templates/dashboard/analysis_view.py:86-88 | Prepending an entry to a boolean mask adds one to its `.sum()` exactly when the entry is true. |
| Counting.CountTail | dashboard/templates/dashboard/analysis_view.py:86-88 | The `.sum()` of a non-empty mask is its first entry's contribution plus the rest's. |
| Counting.CountEmpty | dashboard/templates/dashboard/analysis_view.py:86-88 | An empty mask sums to 0. |
| Text.Strip | dashboard/templates/dashboard/analysis_view.py:21-25 | `strip()` leaves no whitespace at either end. |
| Text.StripFixed | dashboard/templates/dashboard/analysis_view.py:21-23 | A string without whitespace at its ends is its own strip. |
| Text.StripIdempotent | dashboard/templates/dashboard/analysis_view.py:233-235 | Stripping twice is stripping once. |
| Text.StripKeeps | dashboard/templates/dashboard/analysis_view.py:233 | Every non-whitespace character lies inside the stripped slice. |
| Text.SkipSpaces | dashboard/templates/dashboard/analysis_view.py:233 | The first non-whitespace position: only whitespace before it. |
| Text.TextEnd | dashboard/templates/dashboard/analysis_view.py:233 | One past the last non-whitespace character: only whitespace after it. |
| Text.StripStart | dashboard/templates/dashboard/analysis_view.py:233 | Everything before the start of the strip is whitespace. |
| Text.StripEnd | dashboard/templates/dashboard/analysis_view.py:233 | Everything from the end of the strip on is whitespace. |
| Text.Lower | dashboard/templates/dashboard/analysis_view.py:51 | `lower()` on the ASCII letters: each character is lowered on its own. |
| Text.ContainsAt | dashboard/templates/dashboard/analysis_view.py:51 | The substring test `t in s` holds exactly when `t` occurs at some position of `s`. |
| Text.ContainsAtWitness | dashboard/templates/dashboard/analysis_view.py:51 | An occurrence at a position makes `t in s` true. |
| Text.RemoveBlanks | dashboard/templates/dashboard/analysis_view.py:419 | `replace(' ', '')` leaves no ASCII space, keeps every other character, and its length is the number of non-space characters. |
| Text.RemoveBlanksIsReplace | dashboard/templates/dashboard/analysis_view.py:419 | Removing the blanks is `Replace` of `' '` by `''`. |
| Text.RemoveBlanksAppend | dashboard/templates/dashboard/analysis_view.py:419 | Removing spaces distributes over concatenation. |
| Text.Split | dashboard/templates/dashboard/analysis_view.py:25 | `split('-')` gives at least one piece and no piece holds the separator. |
| Text.SplitJoin | dashboard/templates/dashboard/analysis_view.py:25 | Joining the pieces with the separator gives the text back. |
| Text.CollapseRuns | dashboard/templates/dashboard/analysis_view.py:234 | `re.sub(r'\s+', ' ', s)` leaves only single ASCII spaces as whitespace, and keeps a non-whitespace first and last character. |
| Text.CollapsedSuffix | dashboard/templates/dashboard/analysis_view.py:234 | Dropping the first character of a collapsed text keeps it collapsed. |
| Text.CollapsedSlice | dashboard/templates/dashboard/analysis_view.py:234 | Every slice of a collapsed text is collapsed. |
| Text.CollapseRunsFixed | dashboard/templates/dashboard/analysis_view.py:234 | A collapsed text is left unchanged by the substitution. |
| Text.Normalize | dashboard/templates/dashboard/analysis_view.py:233-235 | The clean-up before parsing a date leaves single spaces only, none at either end. |
| Text.NormalizeIdempotent | dashboard/templates/dashboard/analysis_view.py:233-235 | Cleaning an already cleaned text changes nothing. |
| Text.TakeWord | dashboard/templates/dashboard/analysis_view.py:240 | The longest prefix without whitespace, followed by whitespace or the end. |
| Text.FirstToken | dashboard/templates/dashboard/analysis_view.py:240 | `s.split()[0]` exists exactly when the text is not all whitespace. It is then a non-empty word without whitespace that occurs in the text. |
| Text.LessIrreflexive | dashboard/templates/dashboard/analysis_view.py:281 | No string sorts before itself. |
| Text.LessTransitive | dashboard/templates/dashboard/analysis_view.py:281 | String order is transitive. |
| Text.LessTotal | dashboard/templates/dashboard/analysis_view.py:281 | Any two different strings are ordered one way or the other. |
| Text.Replace | dashboard/templates/dashboard/analysis_view.py:102 | `replace` leaves a text without the pattern unchanged. For a one-character pattern and one-character replacement, every occurrence is replaced in place and every other character kept. For an empty replacement the pattern character disappears and every other character stays. |
| Text.ReplaceSelf | dashboard/templates/dashboard/analysis_view.py:102 | Replacing a pattern by itself changes nothing. |
| Tables.Shown | dashboard/templates/dashboard/analysis_view.py:60-61 | `astype(str)` renders an empty cell as `nan` and a text as itself. |
| Tables.FindColumn | dashboard/templates/dashboard/analysis_view.py:49-53 | The first-match loops return the first header the rule accepts, or nothing exactly when no header is accepted. |
| Tables.FirstTrue | dashboard/templates/dashboard/analysis_view.py:50-53 | The position of the first true flag, or none when every flag is false. |
| Tables.IndexOf | dashboard/templates/dashboard/analysis_view.py:78-80 | `df[name]` finds a header equal to `name`, and fails exactly when there is none. |
| Tables.ColumnOf | dashboard/templates/dashboard/analysis_view.py:116 | A column has one cell per row, read from that row. |
| Tables.PersNoRulesAgree | dashboard/templates/dashboard/analysis_view.py:51 | A header containing `pers no` in lower case also contains `persno` once its spaces are removed. |
| Tables.BlanksAround | dashboard/templates/dashboard/analysis_view.py:419 | Removing spaces around an occurrence of `pers no` leaves `persno`. |
| Tables.PersNoWithoutBlank | dashboard/templates/dashboard/analysis_view.py:419 | `pers no` without its space is `persno`. |
| Tables.PersNoFoundNoLater | dashboard/templates/dashboard/analysis_view.py:424 | Whenever the score analysis finds an identifier column, the missing-assessment table finds one too, no later in the header order. |
| Tables.CleanPlain | dashboard/templates/dashboard/analysis_view.py:590-591 | On a header without no-break spaces or zero-width non-joiners, `clean_col` is a plain strip. |
| Tables.NoCharNoContains | dashboard/templates/dashboard/analysis_view.py:591 | A one-character substring occurs only if the character does. |
| Tables.Common | dashboard/templates/dashboard/analysis_view.py:69 | `[q for q in xs if q in ys]` holds exactly the entries of `xs` that are also in `ys`. |
| Tables.CommonAppend | dashboard/templates/dashboard/analysis_view.py:69 | The comprehension's loop: appending an entry to `xs` appends it to the result exactly when `ys` has it, so the result keeps the order of `xs`. |
| Tables.Clean | dashboard/templates/dashboard/analysis_view.py:590-591 | `clean_col` leaves no no-break space and no zero-width non-joiner, and no whitespace at either end. |
| Tables.Unique | dashboard/templates/dashboard/analysis_view.py:269 | `unique()` holds each entry exactly once and nothing else. |
| Tables.DropNull | dashboard/templates/dashboard/analysis_view.py:298 | `dropna()` keeps exactly the non-empty cells. |
| Join.IdKeys | dashboard/templates/dashboard/analysis_view.py:60-61 | One text key per row: the identifier cell as rendered by `astype(str)`. |
| Join.PartnersFrom | dashboard/templates/dashboard/analysis_view.py:78-80 | The post rows with a given key, all of them, in row order. |
| Join.JoinFrom | dashboard/templates/dashboard/analysis_view.py:78-80 | Every pair produced matches, and pairs come in pre-row then post-row order. |
| Join.JoinPairs | dashboard/templates/dashboard/analysis_view.py:78-80 | The inner merge pairs only rows with equal keys, in pre-row then post-row order. |
| Join.JoinFromComplete | dashboard/templates/dashboard/analysis_view.py:78-80 | No matching pair of rows is dropped. |
| Join.JoinExact | dashboard/templates/dashboard/analysis_view.py:78-80 | A pair of rows is in the merge exactly when their keys are equal. |
| Join.JoinSymmetric | dashboard/templates/dashboard/analysis_view.py:109-113 | Swapping the uploads swaps the pairs. |
| Join.NullIdsJoin | dashboard/templates/dashboard/analysis_view.py:60-61 | Rows with an empty identifier on both sides are joined to each other, because both read `nan`. |
| Join.PairedCells | dashboard/templates/dashboard/analysis_view.py:84-85 | For each joined pair, the score cell from each side. |
| Join.Joined | dashboard/templates/dashboard/analysis_view.py:84-85 | `_pre` and `_post` columns of the merge: one pair of cells per joined pair of rows. |
| Join.Restrict | dashboard/templates/dashboard/analysis_view.py:283-284 | `df[df['__date'] == d]` keeps the columns. Every row kept is a row of the frame dated `d`, every row dated `d` is kept, and the number kept is the number of rows dated `d`. |
| Improvement.Greater | dashboard/templates/dashboard/analysis_view.py:87 | `post > pre` succeeds exactly when the two cells can be ordered: two numbers, two texts or two timestamps. |
| Improvement.TallyOf | dashboard/templates/dashboard/analysis_view.py:86-88 | The count fails exactly when some valid pair cannot be ordered. On success the valid count is `valid.sum()`, the number of pairs with both cells present, and the improved count is the number of valid pairs whose post cell is greater. Hence improved ≤ valid ≤ pairs, zero valid pairs give a zero count, zero improved means no valid pair improved, and improved equal to valid means every valid pair improved. |
| Improvement.Rate | dashboard/templates/dashboard/analysis_view.py:89 | The rate times the valid count is 100 times the improved count (0 without valid students). It is a percentage, 100 exactly when everyone valid improved, and 0 exactly when nobody did. |
| Improvement.ImprovementRate | dashboard/templates/dashboard/analysis_view.py:86-93 | The rounded rate exists exactly when every valid pair can be ordered, and it lies in [0, 100]. It is 0 without valid pairs. Otherwise it is `round(improved / valid * 100, 2)`, with both counts taken over the pairs. |
| Improvement.RateMeaning | dashboard/templates/dashboard/analysis_view.py:86-89 | The rate is 100 exactly when some student is valid and every valid student improved. It is 0 exactly when no valid student improved. |
| Improvement.InvalidPairIgnored | dashboard/templates/dashboard/analysis_view.py:86 | A pair with an empty score on either side changes neither count. |
| Improvement.ThreeStudentsExample | dashboard/templates/dashboard/analysis_view.py:86-93 | Scores 40/50/60 before and 45/55/55 after give 66.67. |
| Idi.ScoreOf | dashboard/templates/dashboard/analysis_view.py:116-119 | The correct count is the number of cells equal to the number 1. The answered count is the number of non-empty cells. Hence correct ≤ answered ≤ rows, zero answered exactly when every cell is empty, and every answer correct exactly when the counts are equal. |
| Idi.Index | dashboard/templates/dashboard/analysis_view.py:120 | The index times the answered count is 100 times the correct count (0 without answers). It is a percentage. |
| Idi.IdiStatus | dashboard/templates/dashboard/analysis_view.py:141-147 | `good` exactly above 70, `moderate` exactly from 50 to 70, `needs_attention` exactly below 50. The pre-assessment index plays no part. |
| Idi.StatusMonotone | dashboard/templates/dashboard/analysis_view.py:141-147 | A higher post-assessment index never gets a worse status. |
| Idi.Entry | dashboard/templates/dashboard/analysis_view.py:115-151 | The four counts are the correct and answered counts of the pre side and of the post side of the merge. The entry is the one those counts give: indices rounded to two places, the improvement rounded once from the unrounded indices, and the status computed from the stored indices. Indices lie in [0, 100] and the improvement in [-100, 100]. A side without answers has index 0, and then the status is `needs_attention`. |
| Idi.EntryOf | dashboard/templates/dashboard/analysis_view.py:120-151 | The entry for given counts records them. Each index is `round(correct / total * 100, 2)`, or 0 without answers. The improvement is `round(post_idi - pre_idi, 2)` of the unrounded indices. The status is that of the stored indices, and the bounds of a sound entry hold. |
| Idi.PreSide | dashboard/templates/dashboard/analysis_view.py:116 | The pre-assessment cells of the merge, pair by pair. |
| Idi.PostSide | dashboard/templates/dashboard/analysis_view.py:123 | The post-assessment cells of the merge, pair by pair. |
| Idi.SidesIndependent | dashboard/templates/dashboard/analysis_view.py:123-127 | The post-assessment counts, index and status depend only on the post-assessment cells. |
| Idi.TwoThirdsToAllExample | dashboard/templates/dashboard/analysis_view.py:115-151 | Answers 1,0,1 before and 1,1,1 after give 66.67 → 100.0, improvement 33.33, `good`. |
| Idi.RoundedOnceExample | dashboard/templates/dashboard/analysis_view.py:120-137 | Answers 1,0,0 before and 1,1,0 after display 33.33 and 66.67, and the improvement is 33.33, not the difference 33.34 of the displayed indices. |
| Idi.OneThirdToTwoThirds | dashboard/templates/dashboard/analysis_view.py:120-147 | One out of three correct before and two out of three after give 33.33, 66.67, an improvement of 33.33 and `moderate`. |
| Idi.TwoThirdsToAll | dashboard/templates/dashboard/analysis_view.py:120-147 | Two out of three correct before and three out of three after give 66.67, 100, an improvement of 33.33 and `good`. |
| Idi.ScoreOfThree | dashboard/templates/dashboard/analysis_view.py:116-119 | The counts of a three-student column, one student at a time. |
| Idi.EntryOfThree | dashboard/templates/dashboard/analysis_view.py:115-137 | The entry of a three-student column is the entry of its two sides' counts. |
| Idi.ThirdsRounded | dashboard/templates/dashboard/analysis_view.py:120-137 | One, two and three thirds as percentages round to 33.33, 66.67 and 100, and the differences of successive thirds round to 33.33. |
| Sorting.Insert | dashboard/templates/dashboard/analysis_view.py:281 | Inserting into a strictly sorted list keeps it strictly sorted and adds exactly the new value. |
| Sorting.SortDistinct | dashboard/templates/dashboard/analysis_view.py:281 | `sorted(set(xs))` is strictly ascending and holds exactly the values of `xs`. |
| Sorting.SortedDistinct | dashboard/templates/dashboard/analysis_view.py:281 | A strictly sorted list has no repeats. |
| Sorting.SortCanonical | dashboard/templates/dashboard/analysis_view.py:281 | Two strictly sorted lists with the same values are equal, so the order in which the dates were collected does not matter. |
| Sorting.SortedHeadLeast | dashboard/templates/dashboard/analysis_view.py:281 | The first date sorts before every other one. |
| Sorting.BothEmptyOrNot | dashboard/templates/dashboard/analysis_view.py:281 | Lists with the same values are empty together. |
| Stats.Max | dashboard/templates/dashboard/analysis_view.py:334-335 | `max()` is one of the scores and no score exceeds it. |
| Stats.SumBounds | dashboard/templates/dashboard/analysis_view.py:622-623 | Scores in [lo, hi] give a sum in [n·lo, n·hi]. |
| Stats.Mean | dashboard/templates/dashboard/analysis_view.py:332-333 | `mean()` lies between the smallest and the largest score. |
| Stats.AverageBounds | dashboard/templates/dashboard/analysis_view.py:332-333 | Bounds on every score bound the sum over the count. |
| Stats.MeanWithin | dashboard/templates/dashboard/analysis_view.py:622-623 | Bounds on every score bound the mean. |
| Stats.DivideBounds | dashboard/templates/dashboard/analysis_view.py:623 | Dividing a sum in [n·lo, n·hi] by n gives a value in [lo, hi]. |
| Stats.MeanOfConstant | dashboard/templates/dashboard/analysis_view.py:623 | Identical scores average to that score. |
| Rounding.RoundHalfEven | dashboard/templates/dashboard/analysis_view.py:93 | Python's `round` to an integer: within one half of `x`, and even on a tie. |
| Rounding.RoundHalfEvenUnique | dashboard/templates/dashboard/analysis_view.py:93 | Those two properties determine the result. |
| Rounding.RoundHalfEvenOfInt | dashboard/templates/dashboard/analysis_view.py:93 | An integer rounds to itself. |
| Rounding.RoundHalfEvenMonotone | dashboard/templates/dashboard/analysis_view.py:93 | Rounding preserves order. |
| Rounding.Round2 | dashboard/templates/dashboard/analysis_view.py:93 | `round(x, 2)` is within 0.005 of `x`. |
| Rounding.Round4 | dashboard/templates/dashboard/analysis_view.py:344 | `round(x, 4)` is within 0.00005 of `x`. |
| Rounding.Round2Monotone | dashboard/templates/dashboard/analysis_view.py:93 | `round(_, 2)` preserves order. |
| Rounding.Round4Monotone | dashboard/templates/dashboard/analysis_view.py:344 | `round(_, 4)` preserves order. |
| Rounding.Round2Exact | dashboard/templates/dashboard/analysis_view.py:93 | A value with two decimals is unchanged by `round(_, 2)`. |
| Rounding.Round4Exact | dashboard/templates/dashboard/analysis_view.py:344 | A value with four decimals is unchanged by `round(_, 4)`. |
| Rounding.Round2Within | dashboard/templates/dashboard/analysis_view.py:623 | Rounding keeps a value inside any interval whose ends have two decimals. |
| Rounding.Round2Percentage | dashboard/templates/dashboard/analysis_view.py:93 | A percentage stays a percentage after `round(_, 2)`. |
| Dates.DateText | dashboard/templates/dashboard/analysis_view.py:233-235 | The cleaned text has only single spaces as whitespace and no space at either end. |
| Dates.ExtractDate | dashboard/templates/dashboard/analysis_view.py:227-244 | An empty cell has no date, and a timestamp is formatted directly. Any other cell is rendered as text and cleaned. If the full date-time parse succeeds, its day is used. Otherwise the day of the first word is used, or there is no date when the text is blank. |
| Dates.BlankHasNoDate | dashboard/templates/dashboard/analysis_view.py:239-244 | A text of only whitespace has no date whatever the parsers do, unless the full parser accepts the empty text. |
| Dates.BlankNormalizesEmpty | dashboard/templates/dashboard/analysis_view.py:233-235 | Cleaning a text of only whitespace gives the empty text. |
| Dates.WhitespaceInsensitive | dashboard/templates/dashboard/analysis_view.py:233-244 | Extra or surrounding whitespace never changes the date read from a text. |
| Dates.DatesOf | dashboard/templates/dashboard/analysis_view.py:246-247 | The date column has one extracted date per row. |
| Dates.Present | dashboard/templates/dashboard/analysis_view.py:281 | `dropna()` of the dates holds exactly the dates that were found. |
| Grouped.ValidFaculty | dashboard/templates/dashboard/analysis_view.py:268-269 | `merged.loc[valid, faculty_col]`: a faculty cell is kept exactly when its joined pair is valid. Every cell kept comes from a valid pair, and every valid pair's cell is kept. |
| Grouped.PairFaculty | dashboard/templates/dashboard/analysis_view.py:256-269 | The faculty column of the merge: for each joined pair, the faculty cell of its pre-assessment row. |
| Grouped.FacultyNames | dashboard/templates/dashboard/analysis_view.py:250-271 | The faculty names are distinct and non-empty, and there are none without a faculty column. With one, a cell is a name exactly when it is non-empty and is the faculty cell of some valid joined pair. |
| Grouped.Summary | dashboard/templates/dashboard/analysis_view.py:259-279 | A group's entry exists exactly when its valid pairs can be ordered. Its valid count is the number of valid joined pairs and its improvement count the number of valid pairs that improved. Its rate is the improvement rate of those pairs (0 without valid pairs), and its faculty names are those of the valid pairs. It carries its own label, and it is sound. |
| Grouped.AllDates | dashboard/templates/dashboard/analysis_view.py:281 | The union of both sides' dates, strictly ascending, each found date and nothing else. |
| Grouped.AddDates | dashboard/templates/dashboard/analysis_view.py:282-310 | The date loop succeeds exactly when every date's pairs can be ordered, and it keeps the chart well shaped. |
| Grouped.AddDatesKeys | dashboard/templates/dashboard/analysis_view.py:300-310 | The loop adds exactly the dates that have a valid student. |
| Grouped.AddDatesValues | dashboard/templates/dashboard/analysis_view.py:282-310 | After the date loop, each listed date with a valid student holds that date's summary, and every other key reads as before. |
| Grouped.NextKeys | dashboard/templates/dashboard/analysis_view.py:301 | One iteration adds the date exactly when it has valid students. |
| Grouped.NextShaped | dashboard/templates/dashboard/analysis_view.py:300-310 | One iteration keeps the chart well shaped and the remaining dates above the stored ones. |
| Grouped.PutShaped | dashboard/templates/dashboard/analysis_view.py:302-309 | Storing the lowest remaining date keeps the order. |
| Grouped.GroupedImprovement | dashboard/templates/dashboard/analysis_view.py:218-310 | The chart succeeds exactly when the combined pairs and every date's pairs can be ordered. A date other than `Combined` is a key exactly when it has a valid student, and its value is the summary of that date's merge. `Combined` holds the summary of the full merge unless a literal date `Combined` with valid students overwrites it. The chart is well shaped: `Combined` first, sound entries labelled by their key, unique keys, then only dates with valid students in ascending order. |
| Gain.Norm | dashboard/templates/dashboard/analysis_view.py:336-337 | `avg / max`, or 0 when the maximum is not positive. It is at most 1 when the average does not exceed the maximum, and not negative for a non-negative average. |
| Gain.GainOf | dashboard/templates/dashboard/analysis_view.py:338-342 | The gain is 0 under the guard (either maximum 0, or a normalized pre-score of 1). Otherwise it times `1 - norm_pre` is `norm_post - norm_pre`. It is at most 1, and not negative when the post-score did not drop below a pre-score under 1. |
| Gain.Round4AtMostOne | dashboard/templates/dashboard/analysis_view.py:344 | Rounding to four places keeps a value at most 1. |
| Gain.Round4AtLeastZero | dashboard/templates/dashboard/analysis_view.py:344 | Rounding to four places keeps a value non-negative. |
| Gain.Entry | dashboard/templates/dashboard/analysis_view.py:331-352 | A non-empty group's entry records the averages rounded to two places, both maxima, the normalized averages rounded to four places, and the gain computed from the unrounded normalized averages and rounded to four places. It is sound (valid students > 0, normalized scores and gain at most 1, gain 0 when either maximum is 0), and non-negative scores give non-negative normalized scores. |
| Gain.NormsNonNegative | dashboard/templates/dashboard/analysis_view.py:332-333 | Non-negative scores give non-negative normalized scores. |
| Gain.Scores | dashboard/templates/dashboard/analysis_view.py:325-329 | The valid pairs' two score lists exist exactly when every valid pair holds two numbers. Each has one entry per valid pair, so its length is the valid count. They are empty exactly when no pair is valid, and each entry comes from a valid pair. |
| Gain.GroupGain | dashboard/templates/dashboard/analysis_view.py:364-391 | A group's gain fails only when a valid pair holds a non-number. There is an entry exactly when some pair is valid. Its valid count is the number of valid pairs and it is the entry of their two score lists, so it is sound. |
| Gain.AddGainDates | dashboard/templates/dashboard/analysis_view.py:355-391 | The date loop succeeds exactly when every date's gain does. Entries are sound, keys unique, and the dates added are exactly those with a valid student. |
| Gain.AddGainDatesValues | dashboard/templates/dashboard/analysis_view.py:355-391 | After the date loop, each listed date with a valid student holds that date's gain entry, and every other key reads as before. |
| Gain.PutGain | dashboard/templates/dashboard/analysis_view.py:382 | Storing a sound entry keeps the table sound and its keys unique. It adds exactly that date, which then reads the entry, and every other key reads as before. |
| Gain.CombinedGain | dashboard/templates/dashboard/analysis_view.py:315-352 | The combined part succeeds exactly when the full merge's gain does. It has the single key `Combined`, present exactly when some joined student is valid, holding the full merge's gain entry. |
| Gain.AtMostOne | dashboard/templates/dashboard/analysis_view.py:343-352 | The table holding the combined entry under its key when the group has one, and empty otherwise: the key is present exactly when there is an entry, and reads that entry. |
| Gain.NormalizedGain | dashboard/templates/dashboard/analysis_view.py:315-391 | The gain chart succeeds exactly when the full merge's gain and every date's gain succeed. A date is a key exactly when it has a valid student, and its value is that date's gain entry. `Combined` holds the full merge's entry unless a literal date `Combined` overwrites it, and it is a key exactly when some joined student is valid or such a date exists. Entries are sound, keys unique, and there are no other keys. |
| Missing.IdsFrom | dashboard/templates/dashboard/analysis_view.py:429 | The non-empty identifiers, as text, of the rows from a position on. |
| Missing.IdSet | dashboard/templates/dashboard/analysis_view.py:429-430 | `set(df[col].dropna().astype(str))`: each identifier present once, and the empty set without an identifier column. |
| Missing.Minus | dashboard/templates/dashboard/analysis_view.py:431-432 | The set difference holds exactly the entries of the first set not in the second. |
| Missing.FirstRow | dashboard/templates/dashboard/analysis_view.py:436 | The first row, from a position on, whose identifier reads as the given text: every earlier row's identifier differs, and there is none exactly when no row from there has that text. It is found whenever some non-empty identifier has that text. |
| Missing.NameOf | dashboard/templates/dashboard/analysis_view.py:436-441 | Without an identifier or a name column the name is `''`. Otherwise it is the name cell of the first row whose identifier reads as the given text, with an empty cell turned into `''`, and `''` when no row matches. It is never an empty cell. |
| Missing.Numbered | dashboard/templates/dashboard/analysis_view.py:433-444 | One row per identifier, numbered consecutively, with its name and side. |
| Missing.Blocks | dashboard/templates/dashboard/analysis_view.py:433-455 | The rows are numbered 1, 2, …. Those missing the post-assessment come first, then those missing the pre-assessment, each carrying its identifier. |
| Missing.MissingTable | dashboard/templates/dashboard/analysis_view.py:412-455 | Each row is numbered by its position and has a name. A row missing the post-assessment names an identifier only the pre-assessment has, and vice versa. The post-assessment block precedes the pre-assessment block. |
| Missing.MissingTableCoversPre | dashboard/templates/dashboard/analysis_view.py:431-444 | Every identifier only the pre-assessment has gets a row missing the post-assessment. |
| Missing.MissingTableCoversPost | dashboard/templates/dashboard/analysis_view.py:432-455 | Every identifier only the post-assessment has gets a row missing the pre-assessment. |
| Missing.MissingTableDistinct | dashboard/templates/dashboard/analysis_view.py:429-455 | No identifier is listed twice. |
| Missing.BlocksDistinct | dashboard/templates/dashboard/analysis_view.py:433-455 | Two blocks of distinct, disjoint identifiers list no identifier twice. |
| Missing.MissingTableLength | dashboard/templates/dashboard/analysis_view.py:431-455 | The table has as many rows as the two set differences have members. |
| Missing.NameRowExists | dashboard/templates/dashboard/analysis_view.py:436 | The row lookup never fails for an identifier in the set, so `.iloc[0]` is always defined. |
| Missing.SingleEntry | dashboard/templates/dashboard/analysis_view.py:431-432 | A set with only `x` in it is `{x}`. |
| Missing.NothingIn | dashboard/templates/dashboard/analysis_view.py:431-432 | A set with nothing in it is empty. |
| Missing.OneMissingPre | dashboard/templates/dashboard/analysis_view.py:429-455 | When the post-assessment has every pre-assessment identifier plus exactly one more, the table is that one row, numbered 1, missing the pre-assessment. |
| Missing.OnlyInPostExample | dashboard/templates/dashboard/analysis_view.py:429-455 | Identifiers 1-3 before and 1-4 after, without a name column, give the single row `1, 4, '', Pre Assessment`. |
| Missing.ExampleIds | dashboard/templates/dashboard/analysis_view.py:429-430 | The example's identifier sets: every pre identifier is a post identifier, and `4` is the only extra one. |
| Feedback.Detect | dashboard/templates/dashboard/analysis_view.py:590-600 | Each rating column found has a clean header starting with `F<i>Que` or equal to `F<i>`. A rating is missing exactly when no header qualifies either way. |
| Feedback.DetectPerSlot | dashboard/templates/dashboard/analysis_view.py:592-600 | The all-four test before the fallback makes no difference: each rating independently takes its prefix match, else its exact-name match. |
| Feedback.FloatOf | dashboard/templates/dashboard/analysis_view.py:612-615 | An empty cell gives `None`, and so does a timestamp (whose `float` raises). A number gives itself. |
| Feedback.Ratings | dashboard/templates/dashboard/analysis_view.py:612-616 | A row's four ratings exist exactly when each of them reads as a number, and they are those numbers. |
| Feedback.Weighted | dashboard/templates/dashboard/analysis_view.py:617 | The weighted rating lies between the lowest and the highest rating, and equals the rating when all four agree. |
| Feedback.WeightsAverage | dashboard/templates/dashboard/analysis_view.py:617 | The weights 0.30, 0.25, 0.25, 0.20 are non-negative and sum to 1. |
| Feedback.Scores | dashboard/templates/dashboard/analysis_view.py:609-619 | One score per row whose four ratings all read as numbers, in row order, and none for any other row: the number of scores is the number of such rows. |
| Feedback.ScoresAppend | dashboard/templates/dashboard/analysis_view.py:609-619 | Appending a row appends its own score when its ratings read as numbers, and nothing otherwise. |
| Feedback.ScoresAppendRated | dashboard/templates/dashboard/analysis_view.py:609-619 | A further row whose four ratings read as numbers appends exactly its weighted rating; any other row leaves the scores as they were. |
| Feedback.ScoresCons | dashboard/templates/dashboard/analysis_view.py:609-619 | The scores of a list are the first row's own score followed by the rest's. |
| Feedback.ScoresOne | dashboard/templates/dashboard/analysis_view.py:609-619 | A single row gives its own score, or nothing. |
| Feedback.ScoresWithin | dashboard/templates/dashboard/analysis_view.py:609-619 | Ratings on a scale give scores on that scale. |
| Feedback.ScoresHead | dashboard/templates/dashboard/analysis_view.py:609-619 | A first row on the scale keeps every score on the scale. |
| Feedback.WeightedWithin | dashboard/templates/dashboard/analysis_view.py:617 | Four ratings on a scale give a weighted rating on that scale. |
| Feedback.Positions | dashboard/templates/dashboard/analysis_view.py:601-606 | The positions of the four detected columns. |
| Feedback.Analyse | dashboard/templates/dashboard/analysis_view.py:586-623 | The report lists the detected columns. It has an average exactly when all four were found and some row's ratings all read as numbers. The average is the mean score rounded to two places. |
| Feedback.AverageOnScale | dashboard/templates/dashboard/analysis_view.py:609-623 | On a whole-number rating scale such as 1 to 5, the reported average stays on the scale. |
| Feedback.AlreadyClean | dashboard/templates/dashboard/analysis_view.py:590-591 | A header without special spaces or surrounding whitespace is its own `clean_col`. |
| FeedbackExamples.UniformRow | dashboard/templates/dashboard/analysis_view.py:612-617 | A respondent who gives the same rating throughout scores that rating. |
| FeedbackExamples.TwoRespondentsExample | dashboard/templates/dashboard/analysis_view.py:609-623 | Respondents rating 4 and 2 throughout average 3.0. |
| FeedbackExamples.TwoScores | dashboard/templates/dashboard/analysis_view.py:609-619 | Two rows that both read as numbers give their two scores in row order. |
| FeedbackExamples.ScoresOfRated | dashboard/templates/dashboard/analysis_view.py:609-619 | A first row that reads as numbers puts its score ahead of the rest. |
| FeedbackExamples.MeanOfTwo | dashboard/templates/dashboard/analysis_view.py:623 | The mean of two scores is their half-sum. |
| English.EmptyNotEnglish | dashboard/templates/dashboard/analysis_view.py:16-17 | The empty text is not English-only, because it has no letter. |
| English.StripKeepsEnglish | dashboard/templates/dashboard/analysis_view.py:20-23 | Stripping an English-only text keeps it English-only. |
| English.SliceKeepsEnglish | dashboard/templates/dashboard/analysis_view.py:16-17 | A slice of allowed characters that contains a letter is English-only. |
| English.GroupAt | dashboard/templates/dashboard/analysis_view.py:19 | The pattern `\(([^)]+)\)` matches at `p` exactly with a `(` there, a non-empty run without `)`, and a closing `)`. The group is that run. |
| English.CloseFrom | dashboard/templates/dashboard/analysis_view.py:19 | The first `)` at or after a position, or none. |
| English.FirstGroupFromLeftmost | dashboard/templates/dashboard/analysis_view.py:19 | `re.search` returns the group at the leftmost position where the pattern matches, and nothing exactly when it matches nowhere. |
| English.IsEnglishOnly | dashboard/templates/dashboard/analysis_view.py:16-17 | An English-only text is non-empty and ASCII. |
| English.FirstEnglishPart | dashboard/templates/dashboard/analysis_view.py:25-28 | The piece returned is a stripped `-` piece that is English-only while no earlier stripped piece is, and there is none exactly when no stripped piece is English-only. |
| English.ExtractEnglish | dashboard/templates/dashboard/analysis_view.py:18-29 | A returned label is always English-only. The first parenthesised group wins when it is English-only, and the label is then that group stripped. Otherwise an English-only header is its own label, stripped. |
| English.ExtractNoneMeaning | dashboard/templates/dashboard/analysis_view.py:18-29 | There is no label exactly when no rule applies: no English group, the header itself not English-only, and no English-only `-` piece. |
| English.PartsBranch | dashboard/templates/dashboard/analysis_view.py:24-28 | When the first two rules fail and the header has a dash, the label is the first English-only piece. |
| English.FirstEnglishPartNone | dashboard/templates/dashboard/analysis_view.py:26-29 | The piece search fails exactly when no stripped piece is English-only. |
| English.ExtractedIsFragment | dashboard/templates/dashboard/analysis_view.py:18-29 | An extracted label always occurs in its header. |
| English.GroupFragment | dashboard/templates/dashboard/analysis_view.py:19-21 | The stripped group occurs in the header. |
| English.PartFragment | dashboard/templates/dashboard/analysis_view.py:25-28 | The chosen piece occurs in the header. |
| English.StripContained | dashboard/templates/dashboard/analysis_view.py:21 | A stripped text occurs in the original. |
| English.ContainsTransitive | dashboard/templates/dashboard/analysis_view.py:21 | A substring of a substring is a substring. |
| English.SplitPartsContained | dashboard/templates/dashboard/analysis_view.py:25 | Every `split` piece occurs in the text, and the first piece is a prefix. |
| English.PersNoHeaderExample | dashboard/templates/dashboard/analysis_view.py:18-21 | The bilingual identifier header `पदनाम क्रमांक (Pers No.)` gives the label `Pers No.`. |
| English.PersNoHeaderGroup | dashboard/templates/dashboard/analysis_view.py:19 | The search on that header finds the group `Pers No.`. |
| English.FirstGroupSkip | dashboard/templates/dashboard/analysis_view.py:19 | Positions without `(` never start a match. |
| English.DevanagariOnlyHeaderExample | dashboard/templates/dashboard/analysis_view.py:18-29 | A header in Devanagari only, without parentheses or dashes, has no label. |

## Left out

- Django and persistence. The model leaves out authentication, `get_object_or_404` on the schedule, the upload queries, the rendering, the redirect, the messages and every `ChartAnalysis` save (lines 520-584). The uploads come in as `Analysis.Uploads`, and the outcome is the data the page shows. Error messages are not modelled beyond the error's kind and the column it names.
- File reading and logging. `pd.read_excel` is outside the model: the spreadsheets are given as frames. The many `print` calls are left out too.
- Imported helpers. `detect_question_and_points_columns`, `extract_question_text` and `extract_points_text` live in another module. They are parameters in `Hooks.Hooks`, so every statement holds whatever they return.
- Lists derived from other modules. `english_columns`, the dropdown lists, `column_info` and `data_quality` (lines 457-489) are built from those helpers and from column statistics that feed only the template, so they are not modelled.
- Schedule-based ratings. `faculty_training_ratings` (lines 624-631) uses the schedule's fields, and the schedule is not modelled.
- Date and number parsing. `datetime.strptime`, `strftime` and `float(text)` are `Hooks` functions. They parse calendar and number text, which the model does not re-implement.
- Floating point. Scores, rates and means are exact reals. Python's `round` is modelled as exact round-half-to-even of the real value, so binary-representation effects (such as `round(2.675, 2)`) are not reproduced.
- Set iteration order. `set` is unordered in Python. The missing-assessment table lists each block in order of first appearance, and every statement about it is independent of that order except the examples with one row.
- Dates sort as exact code-point order, and timestamps order by their instant.
- Grouped.GroupedImprovement: succeeds where the view fails on the JSON encoding of the grouped chart (line 312). When a valid student's faculty cell is a timestamp, `unique().tolist()` (lines 269 and 298) keeps a `pd.Timestamp`, and `json.dumps` raises `TypeError`, which the view turns into a redirect. The model has no JSON step, so the view's model succeeds there too.
- Pandas details. Duplicate column names are not modelled. Neither is a non-text header, on which `col.lower()` raises, nor an identifier column that is also selected as a score column. `unique()` compares cells structurally, so two cells pandas treats as equal values but the model holds as different cells (such as the integer `1` and the float `1.0`) are both kept.
- Grouped.FacultyNames: states which names appear but not their order; `unique()` keeps the order of first appearance, which the model does not promise.
- Text.Lower: lowers the ASCII letters only. Python's `lower()` also lowers other alphabets and can change a text's length (for example `'İ'`); the headers it is applied to are matched against ASCII phrases.
- Averaging timestamps. `mean()` over total points that are timestamps is treated as a failure (`NonNumericScores`) rather than a timestamp average.
- Per-question rates. They are computed and checked for errors only, since the view overwrites them with the total-points rate (line 196).
- The English-label helpers. `is_english_only` and `extract_english` are modelled on their own, since the view defines them but never calls them. Letters and digits are ASCII only, as `isascii()` forces.
- Header clean-up. The zero-width non-joiner removed by `clean_col` is U+200C, following the code.
