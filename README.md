# Math-reasoning data normalisation, modelled in Dafny

This project models the data logic of a small offline pipeline that turns
two public math-reasoning datasets into one training corpus:

* **Formatting step** (`src/step2_format_data.py`). GSM8K rows are split into
  reasoning (the text before the first `####`, stripped) and a numeric answer
  (the number after the leftmost `####` followed by optional whitespace and a digit,
  with thousands commas removed). Rows without such an answer are skipped and
  counted. The first 50,000 Orca-Math rows keep their whole stripped answer
  text as reasoning. Their answer is the last match of `[\d,]+(?:\.\d+)?`,
  commas removed, or the literal `"See reasoning above"` when nothing
  matches. Every record gets a `formatted_output` in the layout
  `<thinking>\n{reasoning}\n</thinking>\n<answer>{answer}</answer>`. The two
  lists are concatenated, shuffled in place and cut at 95 % into train and
  validation parts.
* **Tag fix** (`src/step2b_fix_tags.py`). In every record's
  `formatted_output`, `<thinking>` becomes `<reasoning>` and `</thinking>`
  becomes `</reasoning>`. No other field changes.

Files and modules:

| file | module | contents |
|---|---|---|
| `pystr.dfy` | `Optional`, `PyStr` | `None`-or-value; Python's `str.isspace`, `strip`, `split`, `replace` and substring search over `seq<char>` |
| `patterns.dfy` | `Patterns` | the two regular expressions as explicit scanners (`re.search` leftmost, `re.findall` left to right, non-overlapping), each with a declarative reading of its pattern |
| `filtering.dfy` | `Filtering` | the keep-or-skip and keep-every-row loops as specification functions |
| `pyrandom.dfy` | `PyRandom` | `random.shuffle` as a Fisher-Yates pass over an array, with the generator as a parameter |
| `format_data.dfy` | `FormatData` | records, extractors, formatter, the two per-source loops, the assembler and the whole step |
| `tag_rewrite.dfy` | `TagRewrite` | the tag rewrite on one string, on one record and in place over a record array |

The helpers (`extract_gsm8k_answer`, `extract_gsm8k_reasoning`,
`format_for_competition`) are functions. The loops are methods proved against
specification functions: `FormatGsm8k` (append and count), `FormatOrcaMath`
(append, `break` at `MAX_ORCA`), `PyRandom.Shuffle` and
`TagRewrite.FixFormattedOutputs` (in place on an array).

Three consequences of the code are worth stating on their own:

* An Orca-Math text whose last match is a run of commas (`"costs 5 ,"`)
  yields the empty answer (`OrcaAnswerEmpty`, `CommaOnlyAnswerIsEmpty`).
* The formatting step writes `<thinking>` tags and the tag fix renames them
  (`FixTagsOfFormatted`). The worked row `"step A\nstep B\n#### 24"` is
  followed through both steps (`Gsm8kEndToEndExample`, `EndToEndExample`).
* For its fixed pair of tags the fix is idempotent on every string
  (`FixTagsIdempotent`).

## Model

| member | source | states |
|---|---|---|
| PyStr.Strip | src/step2_format_data.py:40 | `str.strip()` removes exactly the whitespace at both ends: the result is a slice of the input, everything outside it is whitespace, and it neither starts nor ends with whitespace |
| PyStr.JoinSplit | src/step2_format_data.py:38 | `split('####')` loses nothing: joining the parts with the separator gives back the text |
| PyStr.Split | src/step2_format_data.py:38-41 | `str.split` always yields at least one part, so the `return answer_text.strip()` fallback is never reached; `SplitParts` fixes the first part, the only one the code reads; `JoinSplit` says the parts join back to the text |
| PyStr.SplitParts | src/step2_format_data.py:38 | no part of the split contains the separator, and the first part is the text before its first occurrence (the whole text when there is none) |
| PyStr.ReplaceAbsent | src/step2b_fix_tags.py:15-19 | `str.replace`, left to right and non-overlapping, leaves a string in which the pattern does not occur unchanged |
| PyStr.ReplaceLeavesNo | src/step2b_fix_tags.py:15-19 | `str.replace` leaves no occurrence of p behind, when p is the pattern itself or was absent to begin with, provided the replacement cannot combine with its neighbours into a new p: it is at least as long as p, the first character of p appears in it only at its start, its first character does not appear in the rest of p, and it does not begin with p |
| PyStr.ReplaceConcat | src/step2b_fix_tags.py:15-19 | `str.replace` works piece by piece on a concatenation when no occurrence can straddle the seam |
| Patterns.SearchSpec | src/step2_format_data.py:30 | `re.search` finds nothing exactly when no `####` is followed by optional whitespace and a digit; otherwise the match starts at the leftmost such `####`, the group starts after the whitespace and is the longest slice `\d+(?:,\d+)*(?:\.\d+)?` allows there |
| Patterns.Search | src/step2_format_data.py:30 | a successful `re.search` match is `####`, whitespace only, then a number starting with a digit; `SearchSpec` adds that it is the leftmost such match with the longest group |
| Patterns.TokenEndLongest | src/step2_format_data.py:131 | each `findall` match is the longest slice `[\d,]+(?:\.\d+)?` allows from its start |
| Patterns.FindAll | src/step2_format_data.py:131 | `re.findall` spans lie inside the text and are non-empty; `FindAllOrdered`, `FindAllCovers` and `FindAllLast` pin the list down |
| Patterns.FindAllOrdered | src/step2_format_data.py:131 | `findall` matches are tokens of the pattern, greedy, in text order and without overlap |
| Patterns.FindAllCovers | src/step2_format_data.py:131 | every digit or comma of the text lies inside some `findall` match |
| Patterns.FindAllLast | src/step2_format_data.py:131-132 | no digit or comma follows the last match; there is no match exactly when the text has no digit and no comma |
| FormatData.ExtractGsm8kAnswer | src/step2_format_data.py:24-34 | `None` exactly when no `####` is followed by optional whitespace and a digit; otherwise a non-empty string that starts with a digit and holds only digits and at most one `.` (no comma) |
| FormatData.Gsm8kAnswerIsLeftmostLongest | src/step2_format_data.py:30-33 | a found answer is the longest number after the leftmost qualifying `####`, with its commas removed |
| FormatData.Gsm8kPlainExample | src/step2_format_data.py:26-27 | `"#### 72"` gives `"72"` |
| FormatData.Gsm8kGroupedExample | src/step2_format_data.py:32-33 | `"#### 1,000"` gives `"1000"` |
| FormatData.ExtractGsm8kReasoning | src/step2_format_data.py:36-41 | the reasoning never contains `####` |
| FormatData.Gsm8kReasoningIsPrefix | src/step2_format_data.py:36-41 | the reasoning is the stripped text before the first `####`, or the whole stripped text when there is none |
| FormatData.Gsm8kEndToEndExample | src/step2_format_data.py:66-85 | the row `{"question": "Q", "answer": "step A\nstep B\n#### 24"}` becomes the GSM8K record with reasoning `"step A\nstep B"`, answer `"24"` and `<thinking>` markup |
| FormatData.FormatIgnoresQuestion | src/step2_format_data.py:43-53 | the formatted output does not depend on the question |
| FormatData.FormatForCompetition | src/step2_format_data.py:43-53 | reasoning and answer can be read back from the output (by `ParseFormatted`) whenever the answer holds no `>` |
| FormatData.FormatParseRoundTrip | src/step2_format_data.py:49-52 | whatever the reader accepts is exactly the formatter's output for the reasoning and answer it reads |
| FormatData.Gsm8kRecord | src/step2_format_data.py:67-85 | one loop iteration: a row is kept exactly when its answer is found; a kept row keeps its question, has source `gsm8k`, a non-empty numeric answer, `####`-free reasoning and the formatter's layout as output, and reasoning and answer read back from that output |
| FormatData.Gsm8kRecordsShape | src/step2_format_data.py:66-85 | every kept GSM8K record has source `gsm8k`, a numeric answer and the formatter's layout as output |
| FormatData.Gsm8kKeptInOrder | src/step2_format_data.py:66-85 | kept records come from strictly increasing row positions, and a row is kept exactly when its answer is found |
| Filtering.KeptCount | src/step2_format_data.py:74-85 | each row is either kept or counted as skipped: kept plus skipped equals the number of rows |
| FormatData.FormatGsm8k | src/step2_format_data.py:63-85 | the loop's output is the kept records, `skipped` the number of skipped rows, and the two add up to the number of rows |
| FormatData.OrcaFinalAnswer | src/step2_format_data.py:131-136 | the answer is `"See reasoning above"` exactly when the text holds no digit and no comma; any other answer holds only digits and at most one `.` |
| FormatData.OrcaAnswerIsLastMatch | src/step2_format_data.py:131-134 | when there is a match, the answer is the last `findall` match with its commas removed; that match is the longest token of the pattern from its start, and no digit or comma follows it (which match is last is fixed by `FindAll`, `FindAllOrdered` and `FindAllCovers`) |
| FormatData.OrcaAnswerEmpty | src/step2_format_data.py:131-134 | the answer is empty exactly when the last match is made of commas only |
| FormatData.CommaOnlyAnswerIsEmpty | src/step2_format_data.py:131-134 | `"costs 5 ,"` yields the empty answer |
| FormatData.OrcaRecord | src/step2_format_data.py:123-144 | a row becomes a record with its question, stripped reasoning, the last-number answer and source `orca_math`; the record is well formed (the formatter's layout, an answer that is numeric or the fallback), and reasoning and answer read back from its output |
| FormatData.FormatOrcaMath | src/step2_format_data.py:113-144 | the output has `min(n, 50000)` records, and the k-th is the k-th row converted: a prefix of the rows, in order, none skipped |
| FormatData.SplitIndex | src/step2_format_data.py:176 | the split index lies within the corpus |
| PyRandom.ShuffledPermutes | src/step2_format_data.py:171-173 | whatever the generator draws, the shuffle keeps the length and the multiset of records |
| PyRandom.Shuffle | src/step2_format_data.py:173 | the in-place shuffle leaves the array holding the Fisher-Yates order for the draws |
| FormatData.CombineAndSplit | src/step2_format_data.py:168-178 | the corpus is a permutation of GSM8K records followed by Orca-Math records; train plus validation is the corpus, train has the split index's length, and the lengths add up |
| FormatData.WellFormedParses | src/step2_format_data.py:43-53 | a record whose output is the formatter's layout and whose answer is numeric or the fallback can be read back from its output |
| FormatData.FormatAll | src/step2_format_data.py:60-178 | the whole step: a source that fails to load contributes nothing; the GSM8K list is the kept records; the Orca-Math list has `min(n, 50000)` records, the k-th being row k converted; the corpus is a permutation of both lists; train plus validation is the corpus; every record in it is well formed and reads back from its output |
| TagRewrite.FixTags | src/step2b_fix_tags.py:15-19 | after the two replacements the text holds neither `<thinking>` nor `</thinking>` |
| TagRewrite.FixTagsFixedPoints | src/step2b_fix_tags.py:15-19 | the rewrite leaves a text unchanged exactly when it holds neither old tag |
| TagRewrite.FixTagsIdempotent | src/step2b_fix_tags.py:15-19 | applying the rewrite twice gives the same text as applying it once |
| TagRewrite.FixTagsOfFormatted | src/step2b_fix_tags.py:15-19 | a formatter output whose reasoning and answer hold no old tag becomes the same layout with `<reasoning>`/`</reasoning>` tags |
| TagRewrite.EndToEndExample | src/step2b_fix_tags.py:14-19 | after the tag fix, that record's output is `<reasoning>\nstep A\nstep B\n</reasoning>\n<answer>24</answer>` and its other fields are unchanged |
| TagRewrite.FixWellFormed | src/step2b_fix_tags.py:14-19 | a well-formed record whose reasoning holds no old tag ends up in the `<reasoning>` layout |
| TagRewrite.FixedRecords | src/step2b_fix_tags.py:14-19 | the pass keeps the number of records, and each record is the old one with only its formatted output rewritten |
| TagRewrite.FixedRecordsClean | src/step2b_fix_tags.py:14-19 | after the pass no output holds an old tag, and question, reasoning, answer and source are unchanged |
| TagRewrite.FixedRecordsIdempotent | src/step2b_fix_tags.py:14-19 | running the pass over a file twice is the same as running it once |
| TagRewrite.FixFormattedOutputs | src/step2b_fix_tags.py:14-19 | the in-place loop leaves the array holding exactly the rewritten records |

## Left out

- Download of the datasets (`src/step1_download_datasets.py`) is not part of this model: it is network access through an external library.
- Loading from disk, JSON reading and writing and directory creation: rows come in and record lists go out as in-memory sequences. A dataset that fails to load is a `None` argument of `FormatData.FormatAll`.
- Console output, the `try`/`except` reporting paths and the `formatted_examples[0]` preview. The preview raises on an empty list, and the handler then sets that source's list to empty, which is the list it already was; the model therefore keeps the lists as computed.
- The Mersenne Twister behind `random.seed(42)` and `random.shuffle`: the generator's draws are a parameter, so the model covers every draw sequence and does not fix the one order seed 42 gives.
- FormatData.SplitIndex: `int(n * 0.95)` is modelled as the exact `n * 95 / 100`; the floating-point product can round differently for some `n`, so the model does not claim the same index bit for bit.
- Python's `\d` also matches non-ASCII decimal digits; the model's digit class is `0`-`9` only.
- Python's general regular-expression engine: only the two fixed patterns are modelled, as scanners whose greedy choices are proved to be the longest matches.
