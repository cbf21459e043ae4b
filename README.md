# ReasoningTrap grading core in Dafny

This project models how ReasoningTrap grades the samples a model produced
for each problem. Grading works in several steps:

- The final answer is extracted from a sample's `\boxed{...}` group.
- Each sample is graded or judged.
- A pass@k table is filled for k in 1, 2, 4, 8 and 16.
- A judge decides whether the sample's reasoning *perceives* the reference
  solution.
- Both verdict lists are joined per problem id.
- `calc_pass_scores.py` turns the joined file into micro and macro averages
  of p-pass@1, pass@1 and the perception ratio, with their standard errors.

Modules:

- `Text` (`text.dfy`): the Python string operations the core relies on, as
  recursive functions with their properties proved:
  - `str.strip` with Python's whitespace set, and `strip("[]")`;
  - `rfind`, `split` and `join`;
  - ASCII `lower`.
- `Tally` (`tally.dfy`): `sum` over lists of booleans.
- `Extract` (`extract.dfy`): `utils/extract.py`, meaning
  `extract_last_boxed_text` (a method with its brace-depth loop, proved
  against a recursive specification) and `extract_condition_list`.
- `PassAtK` (`passk.dfy`): the pass@k loop shared by `evaluate_passk` and
  `evaluate_passk_puzzle`. It is a method proved against the table function
  `PassTable`. `math.comb` is a recursive function.
- `EvalPipeline` (`eval_pipeline.dfy`): the three per-problem evaluators,
  answer selection, the loop that builds the job lists, the two pools as
  sequential loops, the join by problem id, and the whole run
  (`RunEvaluation`). The OpenAI judges and `grade_answer_sympy` are function
  parameters.
- `Scores` (`scores.dfy`): `calculate_scores`, a loop proved against
  `SummaryOf`, and `mean_se` with the standard error kept squared.
- `Wrappers` (`wrappers.dfy`): `Option` and `Result`.

Where the code and its own comments disagree, the model follows the code:

- The docstring of `extract_last_boxed_text` says an unbalanced group yields
  `""`. The loop returns the characters it collected up to the end of the
  input (`Extract.UnclosedGroupKept`).
- The pass@k loop computes `1 - comb(n-c, k) / comb(n, k)`, the unbiased
  pass@k estimator of Chen et al. (2021). Before it, a branch returns 1.0
  whenever `c >= k`; its comment says it handles edge cases to avoid
  division by zero (eval_pipeline.py:83 and :118). No zero division can
  occur there: `comb(n, k)` is at least 1 for `k <= n` (`PassAtK.Binom`).
  The branch changes values instead: the estimator is 1.0 only when
  `n - c < k`. The model computes what the code computes.
  `PassAtK.ShortcutDivergence` characterises exactly when the two differ,
  and `PassAtK.DivergenceExample` gives an instance.

## Model

| member | source | states |
|---|---|---|
| Extract.LastBoxedText | utils/extract.py:4-31 | the definition: `""` for None or when `rfind` finds no `\boxed{`, otherwise the stripped `ScanBody` of the text after the last marker |
| Extract.ExtractLastBoxedText | utils/extract.py:4-31 | returns the stripped body of the group opened by the last `\boxed{`, and `""` when the input is None or holds no marker |
| Extract.ScanGroup | utils/extract.py:16-29 | the depth-tracking loop collects exactly `ScanBody` of the text after the marker: everything up to the `}` that closes depth 1, or the rest of the input |
| Extract.ScanBodyIsGroupBody | utils/extract.py:20-29 | the collected text is a prefix of the input that never closes the outer group, and it either stops right before the closing `}` or runs to the end of the input |
| Extract.LaterGroupWins | utils/extract.py:12 | text before a suffix that holds a `\boxed{` never changes the extracted answer |
| Extract.ResultHasNoMarker | utils/extract.py:12-31 | the extracted answer never contains `\boxed{` |
| Extract.ReextractClosedGroup | utils/extract.py:4-31 | when the last group is closed, wrapping the answer in a fresh `\boxed{...}` and extracting again gives the same answer back |
| Extract.NestedBracesKept | utils/extract.py:20-29 | inner balanced braces stay in the answer: `\boxed{a{b}c}` gives `a{b}c` |
| Extract.UnclosedGroupKept | utils/extract.py:20-31 | an unclosed group yields the collected text, not `""`: `\boxed{a{b` gives `a{b`, and its group is not closed |
| Extract.ReextractUnclosedGroup | utils/extract.py:20-31 | re-extraction is not the identity for unclosed groups: wrapping `a{b` gives `a{b}` |
| Extract.LastOfTwoGroups | utils/extract.py:12-31 | of two groups the last wins: `\boxed{1} then \boxed{2}` gives `2` |
| Extract.DropLabel | utils/extract.py:63 | the label regex removes a suffix-preserving prefix, and it removes something exactly when the part starts with an ASCII letter and a `.` |
| Extract.ConditionListClean | utils/extract.py:60-67 | every condition is `;`-free and trimmed; there are at most as many conditions as split parts, and exactly as many iff no part is blank |
| Extract.ExtractConditionList | utils/extract.py:60-67 | the definition: strip `[` and `]` from both ends, split on `;`, and map each part that is not blank after strip to its label-removed, trimmed form |
| Extract.ConditionItemsDropOnlyBlank | utils/extract.py:62-66 | there is one item per part that is not blank after strip; every such part yields its label-removed, trimmed form as an item, and every item comes from such a part; so no part is dropped iff none is blank |
| Extract.ConditionListExample | utils/extract.py:60-67 | as written, `[a. p; b. q]` gives `["p", "b. q"]` |
| Extract.PaddingKeepsLabel | utils/extract.py:63-64 | as written, two part lists that agree after strip (`"b. q"` and `" b. q"`) give different conditions |
| Extract.IntendedIgnoresPadding | utils/extract.py:63 | with the label removed after strip, parts that agree after strip give the same conditions |
| Extract.IntendedConditionListExample | utils/extract.py:60-67 | with the label removed after strip, `[a. p; b. q]` gives `["p", "q"]` |
| Extract.IntendedMatchesOnTrimmed | utils/extract.py:62-66 | on parts that are already trimmed, the corrected comprehension agrees with the code as written |
| EvalPipeline.TruncateParagraphs | eval_pipeline.py:60 | the definition: split on `\n\n`, keep the first 15 parts, join them with `\n\n` |
| EvalPipeline.TruncateParagraphsPrefix | eval_pipeline.py:60 | the judge sees a prefix of the sample, and the whole sample iff it has at most 15 paragraphs |
| EvalPipeline.IsTrueReply | eval_pipeline.py:63-64 | the definition: a judge reply counts as true iff, stripped and lower-cased, it is `true` (also the reading of the puzzle judge at line 103) |
| EvalPipeline.IsTrueReplyIff | eval_pipeline.py:63-64 | a reply counts as true iff, once stripped, it has four characters, each the upper or lower case of `true` |
| EvalPipeline.EvaluatePerception | eval_pipeline.py:34-66 | one verdict per raw sample, in order: the judge's reply on the first 15 paragraphs, read as true or false; the problem id comes back unchanged |
| EvalPipeline.EvaluatePassK | eval_pipeline.py:69-92 | fails iff there are no answers; otherwise it returns one `grade_answer_sympy` verdict per answer, the first canonical ground truth, the canonical answers, the pass@k table of the verdicts, and the problem id |
| EvalPipeline.AfterLastThink | eval_pipeline.py:97-98 | the definition: the last part of `split("</think>")` when the tag occurs, the whole sample otherwise |
| EvalPipeline.AfterLastThinkIsTail | eval_pipeline.py:97-98 | without `</think>` the puzzle judge sees the whole sample; with it, exactly the text after the last `</think>` |
| EvalPipeline.TextAfterLastIsTail | eval_pipeline.py:97-98 | `split(sep)[-1]` is the whole text when `sep` is absent, and the text after the last occurrence of `sep` otherwise |
| EvalPipeline.AfterLastThinkHasNoTag | eval_pipeline.py:97-98 | the text shown to the puzzle judge never contains `</think>` |
| EvalPipeline.PuzzleMatch | eval_pipeline.py:95-103 | the definition: the puzzle judge sees the text after the last `</think>` (the whole sample when there is none), and the verdict is true iff its reply, stripped and lower-cased, is `true` |
| EvalPipeline.EvaluatePassKPuzzle | eval_pipeline.py:106-127 | one puzzle-judge verdict per sample, the pass@k table of those verdicts, the ground truth unchanged, the samples as answers, and the problem id |
| EvalPipeline.SelectAnswers | eval_pipeline.py:168-173 | the definition: `reasoning` when present with a non-empty first entry, else `raw` (an empty `reasoning` list is an error); zipped with the upstream answers, an empty answer replaced by the boxed answer of its text |
| EvalPipeline.SelectAnswersSpec | eval_pipeline.py:168-173 | selection fails iff `reasoning` is an empty list. Otherwise there is one answer per zipped pair; a non-empty upstream answer is kept, and an empty one becomes the boxed answer of the reasoning text (or of the raw text), which holds no `\boxed{` |
| EvalPipeline.BuildJobs | eval_pipeline.py:160-180 | the loop builds the job lists that `JobsUpTo` describes, or stops with the error of the first entry that raises |
| EvalPipeline.JobsUpToSpec | eval_pipeline.py:160-180 | the j-th pass@k job and the j-th perception job both belong to the j-th metadata entry that has samples; puzzles get the raw outputs and the others the selected answers |
| EvalPipeline.JobsUpToFails | eval_pipeline.py:161-173 | building the jobs fails iff some metadata entry with samples has an empty `reasoning` list |
| EvalPipeline.KeptIndicesComplete | eval_pipeline.py:161-165 | the entries that get jobs are, in increasing order, exactly those whose id has samples |
| EvalPipeline.EvaluateAllPassK | eval_pipeline.py:183-195 | one pass@k result per job, in order, with the job's id, verdicts, table, stored ground truth (unchanged for puzzles, the first canonical one otherwise) and stored answers (the raw outputs for puzzles, the canonical answers otherwise); graded (not puzzle) evaluation fails iff some job has no answers |
| EvalPipeline.EvaluateAllPerception | eval_pipeline.py:197-202 | one verdict list per perception job, in order, with the job's id |
| EvalPipeline.IndexOf | eval_pipeline.py:209 | `list.index`: the first position of the id, or none when it is absent |
| EvalPipeline.JoinResults | eval_pipeline.py:204-211 | fails iff either result list is empty or some pass@k id has no perception result; otherwise the keys are the pass@k ids, and each maps to the last pass@k result for it paired with the first perception result of that id |
| EvalPipeline.RunEvaluation | eval_pipeline.py:160-211 | the run fails iff no metadata entry has samples, some entry has an empty `reasoning` list, or a graded entry selects no answers. Otherwise the output keys are exactly the ids with samples, and each entry holds that problem's own perception verdicts and its pass@k verdicts, table, ground truth and answers, as `evaluate_passk` or `evaluate_passk_puzzle` stores them |
| PassAtK.PassAt | eval_pipeline.py:79-88 | the definition: 0 when no sample is correct, 1.0 when `c >= k`, otherwise `1 - comb(n-c, k) / comb(n, k)` |
| PassAtK.ComputePassAtK | eval_pipeline.py:76-88 | the loop over k in 1, 2, 4, 8, 16 fills exactly the table `PassTable` of the verdicts |
| PassAtK.PassTableKeys | eval_pipeline.py:77-78 | k is a key iff it is one of 1, 2, 4, 8, 16 and at most the number of samples |
| PassAtK.PassTableEntry | eval_pipeline.py:79-88 | each present entry is `PassAt(n, c, k)` with n samples and c of them correct |
| PassAtK.PassTableValues | eval_pipeline.py:79-88 | every entry lies in [0, 1]; it is 0 iff no sample is correct, and 1 when all are |
| PassAtK.PassAtRange | eval_pipeline.py:79-88 | pass@k lies in [0, 1]; it is 0 iff c = 0, and 1 iff c >= k or n - c < k |
| PassAtK.ClosedFormRange | eval_pipeline.py:88 | `1 - comb(n-c, k) / comb(n, k)` lies in [0, 1]; it is 0 iff c = 0, and 1 iff n - c < k |
| PassAtK.ShortcutDivergence | eval_pipeline.py:84-85 | the code's value equals the unbiased estimator iff c < k or n - c < k, and never lies below it |
| PassAtK.DivergenceExample | eval_pipeline.py:84-88 | with 4 samples and 2 correct, the code reports pass@1 = pass@2 = 1.0 where the estimator gives 0.5 and 5/6 |
| PassAtK.NotMonotoneExample | eval_pipeline.py:84-88 | the code's pass@k can decrease in k: with 4 samples and 1 correct, pass@1 = 1.0 and pass@2 = 0.5 |
| PassAtK.PassAtMonotoneInBranch | eval_pipeline.py:86-88 | within the closed-form branch (0 < c < k), pass@k does not decrease as k grows |
| PassAtK.Binom | eval_pipeline.py:88 | `math.comb(n, k)` is 0 when k > n and at least 1 when k <= n, so line 88 never divides by zero |
| PassAtK.BinomStep | eval_pipeline.py:88 | `math.comb` satisfies (k+1)·C(m, k+1) = (m-k)·C(m, k) |
| PassAtK.BinomMonotone | eval_pipeline.py:88 | C(m, k) <= C(n, k) when m <= n |
| PassAtK.SixteenSamplesOneCorrect | eval_pipeline.py:77-85 | 16 samples with one correct give pass@1 = pass@16 = 1.0 |
| PassAtK.ThreeSamplesKeys | eval_pipeline.py:77-78 | 3 samples give a table with keys {1, 2} only |
| Tally.CountTrue | calc_pass_scores.py:35 | `sum(correct)` is at most the length; it is 0 iff no entry is true, and the length iff all are |
| Tally.CountBoth | calc_pass_scores.py:28 | `sum(int(c) * int(p) ...)` is at most each of the two counts |
| Tally.CountTrueConcat | calc_pass_scores.py:22-46 | counts add over concatenation |
| Scores.CalculateScores | calc_pass_scores.py:9-66 | fails iff some problem's two verdict lists differ in length, and then reports the lengths of the first such problem (all before it matched, and its own lists differ); otherwise it returns `SummaryOf` the file: three micro ratios, three means and three squared standard errors |
| Scores.TotalsInvariant | calc_pass_scores.py:22-46 | each running numerator is at most its denominator; the p-pass@1 denominator equals the perceived count; with matched lengths the pass@1 and perception denominators agree |
| Scores.RatioInUnit | calc_pass_scores.py:48-50 | `num / den if den > 0 else 0` lies in [0, 1]; it is 0 iff num = 0, and 1 iff num = den (for den > 0) |
| Scores.ProblemRatios | calc_pass_scores.py:28-44 | each per-problem ratio lies in [0, 1]; pass@1 and the perception ratio are 0 iff no verdict is true; p-pass@1 is 0 when nothing is perceived |
| Scores.MicroInUnit | calc_pass_scores.py:48-50 | the three micro averages lie in [0, 1] |
| Scores.Mean | calc_pass_scores.py:55 | the definition: the sum over the length, 0 for an empty list |
| Scores.SquaredSe | calc_pass_scores.py:56 | the definition: the Bessel-corrected variance divided by n, 0 for fewer than two values (the square of `std(ddof=1) / sqrt(n)`) |
| Scores.SummaryOf | calc_pass_scores.py:48-66 | the definition: the three micro ratios of the totals, then mean and squared standard error of each per-problem list, in the order the function returns them |
| Scores.MeanInUnit | calc_pass_scores.py:55 | the mean of values in [0, 1] lies in [0, 1], and is 0 for an empty list |
| Scores.SquaredSeNonNegative | calc_pass_scores.py:56 | the squared standard error is non-negative, and 0 for fewer than two values |
| Scores.ConstantScores | calc_pass_scores.py:53-57 | a constant list has that constant as mean and a zero standard error |
| Scores.SummaryRanges | calc_pass_scores.py:48-66 | all nine returned numbers are in range, and an empty file scores 0 throughout |
| Scores.UniformMicroIsMacro | calc_pass_scores.py:35-39 | when every problem has the same number of samples, zero included, micro pass@1 equals the macro mean of pass@1 |
| Scores.HalfCorrectExample | calc_pass_scores.py:35-60 | one all-correct and one all-wrong problem of 16 samples each give pass@1 = 0.5, as micro and as macro average, and the macro mean has a nonzero standard error (its square is 0.25), so the two statistics are computed separately |
| Text.SplitJoin | eval_pipeline.py:60 | joining the parts of `split(sep)` with `sep` gives the text back |
| Text.SplitPartsLackSeparator | eval_pipeline.py:98 | no part of `split(sep)` contains `sep` |
| Text.LastIndexOf | utils/extract.py:12 | `rfind`: an occurrence with no later occurrence, or none when the pattern is absent |
| Text.StripByShape | utils/extract.py:31 | `strip` removes a maximal run of dropped characters from each end and keeps the infix between them |
| Text.StripByIdempotent | utils/extract.py:61 | stripping twice equals stripping once |

## Left out

- The OpenAI chat calls are not modelled; each judge is a function parameter. The same holds for `grade_answer_sympy`, which `utils/math_utils` provides.
- Prompt formatting (`str.format` of the prompts) is not modelled. A judge receives the question, the reference steps and the truncated sample as separate arguments.
- `multiprocessing` pools and `tqdm` are not modelled. The pools are sequential loops, and `imap` keeps order, so the results are the same.
- File I/O, the glob fallback, `load_metadata_by_key`, the existing-output exit, `argparse`, `dotenv` and `rich` output are not modelled. Metadata and samples are parameters, and the run returns the result map instead of writing JSON.
- The extra `evaluate_perception(perception_args[0])` call before the perception pool is modelled only as its error when there are no jobs. Its verdicts are discarded by the source.
- KeyError on missing fields of a metadata entry or a response is not modelled, because the datatypes always carry those fields.
- Metadata is a sequence of (id, fields) pairs with `DistinctIds` as precondition of `RunEvaluation`, because a Python dict cannot repeat a key.
- EvalPipeline.IsTrueReplyIff: `lower()` is modelled on ASCII letters only. Other letters are left unchanged, so the iff is stated for ASCII case.
- EvalPipeline.TextAfterLastIsTail: stated for separators whose first character does not recur in them (`LeadsOnce`). `</think>` meets that condition.
- PassAtK.ComputePassAtK: table keys are the integers k, not the strings `"pass@k"`. The value 0 for no correct sample is the real 0.0 where Python stores the int 0.
- Floating-point rounding is not modelled. Ratios, means and pass@k are exact reals.
- Scores.SquaredSeNonNegative: the standard error is kept squared (Bessel variance divided by n). The square root is not part of the model, because Dafny's reals have none.
- `extract_condition_list` applies `re.sub(r"^[a-zA-Z]\.\s*", "", part)`. This is modelled as that fixed pattern, not as a general regex engine.
- `parse_theorem` and `extract_tag_contents` in `utils/extract.py` are outside the modelled core. So are `infer.py`, `models.py` and the plotting scripts.
- Python's `None` for `raw` is `Option.None`.

## Findings

| source | as written | input that shows it | evidently intended | confidence | as-written member | corrected member |
|---|---|---|---|---|---|---|
| utils/extract.py:63-64 | the label regex `^[a-zA-Z]\.\s*` is applied to the part before `.strip()`, so a part that starts with the space after `;` keeps its label | `extract_condition_list("[a. p; b. q]")` gives `["p", "b. q"]` | every part loses its label whatever whitespace follows the `;`, giving `["p", "q"]` | not executed | Extract.ConditionListExample, Extract.PaddingKeepsLabel | Extract.ExtractConditionListIntended (Extract.IntendedConditionListExample, Extract.IntendedIgnoresPadding, Extract.IntendedMatchesOnTrimmed) |
