# Kazakh academic sample refiner: a Dafny model

This project models the core of a small corpus-refining tool.

`try_final1.js` reads a corpus of `<SAMPLE>` blocks. Each block has `<PROMPT>`, `<RESPONSE>`, `<DOMAIN>` and `<SOURCE>` fields. The script processes every sample through a chain of language-model calls:

- rewrite the prompt;
- finish dangling sentences;
- append a conclusion;
- auto-solve rubric issues;
- run up to five correct-and-validate passes (`iterativeImproveSample`);
- add a question.

It then sanitizes both texts, writes the records back and prints a summary. `remove_samples.py` deletes `<SAMPLE>…<SOURCE>` sections by 1-based position.

Every model call is an oracle parameter: `None` or `Failed` for a request that `openAiRequest` gave up on, otherwise the reply text. A reply that is parsed as JSON also carries what `safeJsonParse` returned for it. The clean-up `safeJsonParse` performs before the JSON5 parser runs is modelled separately, in `JsonCleanup`.

Modules:

- `Text`: JavaScript whitespace, `trim`, literal search, `split` and `join`.
- `JsonCleanup`: the text steps of `safeJsonParse`:
  - removing code fences;
  - the greedy `{…}` span;
  - removing trailing commas.
- `Completion`: `ensureCompleteSentence`.
- `Samples`: the following steps.
  - Stripping the `=== END FAILED SAMPLE ===` line.
  - The split on `<SAMPLE>`.
  - Field extraction with its defaults.
  - Record rendering, with a round trip from rendering back through extraction.
- `Sanitize`: `sanitizeSection`, its output shape and its idempotence.
- `Improve`: the following functions.
  - `checkAndCorrect` and the two validators.
  - `addDetailCorrections`, as a loop.
  - `iterativeImproveSample`, as a loop proved against a recursive specification `ImproveFrom`.
- `Driver`: the per-sample chain, the main loop that collects records and failed numbers, and the summary counts and time split.
- `RemoveSamples`: `find_sections`, `remove_sections` (with Python's clamped slicing) and the index lists of `main`.

Where the code and its own description disagree, the model follows the code:

- `validateMeaning` falls back to *invalid* when a request fails or its JSON is unusable (try_final1.js:301, 304). It does not fall back to valid. So a sample whose meaning check never answers can never succeed (`Improve.SilentMeaningFails`).
- The comment at try_final1.js:63 says `{ "a":1, }` becomes `{ "a":1 }`. The regular expression also consumes the space, so the result is `{ "a":1}` (`JsonCleanup.DropExample`).
- The trailing-comma replacement at try_final1.js:64 is a single left-to-right pass. A comma followed by another comma is not trailing when the pass reaches it, so of two commas in a row before a bracket only the second is removed: `,,}` becomes `,}` (`JsonCleanup.DropCommaPair`). Text without such comma runs is left with no trailing comma (`JsonCleanup.DropLeavesNoTrailingComma`).
- In `remove_sections`, a repeated index in `-i` is not collapsed. The same span is cut twice, and the second cut removes text that belonged elsewhere (`RemoveSamples.RepeatedIndexCutsTwice`). The model keeps this behaviour. The exact "remove these sections" result is proved for lists without repeats, which `--first` and `--range` always produce.
- `--first 0` is falsy, so it falls through to the range branch, which unpacks a missing range. The model gives this an explicit failure outcome.

## Model

| member | source | states |
|---|---|---|
| Text.SplitOn | try_final1.js:344 | `split` on a literal separator: at least one piece; joining the pieces with the separator gives the text back; no piece contains the separator |
| Text.BetweenNone | try_final1.js:466-468 | a lazy `open(…)close` match fails exactly when no `close` follows any `open` |
| Text.BetweenNoClose | try_final1.js:238-239 | the text a lazy `open(…)close` match captures never contains `close` |
| Text.TrimRemovesSpaceOnly | try_final1.js:134 | `trim` returns a slice of its input; only whitespace lies outside that slice; text without surrounding whitespace is its own trim |
| Text.TrimKeepsNonSpace | try_final1.js:134 | `trim` keeps every non-whitespace character, in order |
| Text.Find | try_final1.js:155 | the index found is the first occurrence at or after the start; no occurrence lies before it |
| JsonCleanup.StripFencesLeavesNoFence | try_final1.js:52-53 | after the first replacement, no triple backtick is left anywhere |
| JsonCleanup.SecondReplaceIdle | try_final1.js:54 | the second backtick replacement never changes the text |
| JsonCleanup.StripFencesNoop | try_final1.js:52-53 | text without a fence passes the fence removal unchanged |
| JsonCleanup.FencedReply | try_final1.js:52-54 | a reply wrapped in a json code fence yields exactly its body |
| JsonCleanup.BraceSpanShape | try_final1.js:58-60 | a `{…}` match exists iff some `{` precedes some `}`; it runs from the first `{` to the last `}` |
| JsonCleanup.DropKeepsSolid | try_final1.js:64 | trailing-comma removal deletes only commas and whitespace |
| JsonCleanup.DropWithoutCommas | try_final1.js:64 | text without commas is unchanged |
| JsonCleanup.DropKeepsEnds | try_final1.js:64 | the first character (unless a comma) and a closing bracket at the end survive comma removal |
| JsonCleanup.DropKeepPrefix | try_final1.js:64 | comma removal leaves a comma-free prefix alone |
| JsonCleanup.DropLeavesNoTrailingComma | try_final1.js:62-64 | when no comma is followed by whitespace and another comma, no comma followed by whitespace and a closing bracket is left |
| JsonCleanup.CommaBeforeBracket | try_final1.js:64 | a comma, whitespace and a closing bracket become the bracket alone, and the rest is cleaned independently |
| JsonCleanup.DropCommaPair | try_final1.js:64 | `,,}` becomes `,}`: of two commas in a row only the second is removed |
| JsonCleanup.DropExample | try_final1.js:63-64 | `{ "a":1, }` becomes `{ "a":1}` |
| JsonCleanup.CleanupFails | try_final1.js:49-59 | the function returns `null` before parsing iff the reply is empty or its unfenced text has no `{` before a `}` |
| JsonCleanup.CleanupSpan | try_final1.js:57-64 | the text given to the parser starts with `{` and ends with `}`; apart from commas and whitespace it is the matched span |
| Completion.EnsureCompleteSentence | try_final1.js:133-156 | the model is asked iff the trimmed text does not end in `.`, `?`, `!` or `…`; the text is unchanged when nobody is asked or the request fails |
| Completion.CompletionKeepsText | try_final1.js:153-155 | whatever the reply, the text's non-space characters lead the result |
| Samples.StripWithoutMarker | try_final1.js:455 | a corpus without the marker is unchanged |
| Samples.MarkerLineDropped | try_final1.js:455 | a marker line at a line start is deleted with its `\n` or `\r\n` |
| Samples.StripAppend | try_final1.js:455 | marker stripping works line by line: a marker-free prefix that ends a line is kept and does not affect the rest |
| Samples.SplitCount | try_final1.js:456 | splitting on a tag gives one more piece than the tag has occurrences |
| Samples.SampleCount | try_final1.js:456 | the number of samples equals the number of `<SAMPLE>` occurrences |
| Samples.FieldDefaults | try_final1.js:466-469 | missing tags give `""`, `""`, `"Cognitive Sciences"` and `"…"`; every field is trimmed |
| Samples.PromptRoundTrip | try_final1.js:466-469 | the prompt is read back from a written record |
| Samples.ResponseRoundTrip | try_final1.js:466-469 | the response is read back from a written record |
| Samples.DomainRoundTrip | try_final1.js:466-469 | the domain is read back from a written record |
| Samples.SourceRoundTrip | try_final1.js:466-469 | the source is read back from a written record |
| Samples.RecordRoundTrip | try_final1.js:456-469 | a written record of tag-free trimmed fields splits into one sample whose extracted fields are the written ones |
| Sanitize.RemoveMarks | try_final1.js:343 | no `#` or `*` is left; every remaining character comes from the input; mark-free text is unchanged |
| Sanitize.RemoveMarksAppend | try_final1.js:343 | the deletion works character by character: marks are removed from a concatenation part by part |
| Sanitize.TrimKeepsWords | try_final1.js:345 | trimming before or after mark removal keeps the same non-space characters |
| Sanitize.CollapseChars | try_final1.js:345 | after collapsing, the only whitespace character left is `' '`, and mark-free text stays mark-free |
| Sanitize.CollapseNoRun | try_final1.js:345 | collapsed text has no two adjacent whitespace characters |
| Sanitize.CleanLineShape | try_final1.js:345 | a cleaned mark-free line is clean and on one line |
| Sanitize.DropEmptyShape | try_final1.js:346 | after the filter, every line is non-empty and clean |
| Sanitize.SanitizeIsClean | try_final1.js:341-349 | the result has no `#` or `*`; its only whitespace is single spaces or newlines, never adjacent and never at either end |
| Sanitize.SanitizeFixesClean | try_final1.js:341-349 | clean text is left unchanged |
| Sanitize.SanitizeIdempotent | try_final1.js:341-349 | sanitizing twice equals sanitizing once |
| Sanitize.SanitizedLines | try_final1.js:344-347 | every line of non-empty sanitized text is non-empty, trimmed and clean |
| Sanitize.SanitizeKeepsText | try_final1.js:341-349 | all non-whitespace characters except `#` and `*` survive, in order |
| Improve.ScoreBelow | try_final1.js:237 | the score is below 85 iff the reply parsed to a number below 85; the default used for unusable JSON never is |
| Improve.CorrectedShape | try_final1.js:238-239 | a response taken from between the tags is trimmed and contains no `</RESPONSE>` |
| Improve.CorrectedRoundTrip | try_final1.js:238-239 | a reply that is exactly `<RESPONSE>y</RESPONSE>` (no `<` in `y`) yields `y` trimmed |
| Improve.CorrectionEffect | try_final1.js:234-240 | `null` exactly when the request failed; otherwise the prompt is kept, the response is kept when the tags are missing, and the score is below 85 only for a parsed number below 85 |
| Improve.NoJsonNoRetry | try_final1.js:234-240 | a reply with no `{…}` span scores 100 and never takes the low-match retry |
| Improve.AnnotationsInOrder | try_final1.js:312-314 | the appended text is one `[type] message / Context:` block per issue, in list order |
| Improve.AnnotationsAppend | try_final1.js:312-314 | annotating a concatenated list appends the annotations of each part |
| Improve.AddDetailCorrections | try_final1.js:309-316 | the output is the text followed by the issue blocks; an empty list gives the text back |
| Improve.AddComplaints | try_final1.js:334-335 | invalid verdicts only append to the response; two valid verdicts leave it unchanged |
| Improve.ImproveFrom | try_final1.js:319-338 | the prompt is returned unchanged; at most five corrections; no more validations than corrections; a success was validated |
| Improve.IterativeImproveSample | try_final1.js:319-338 | the loop returns the success flag, prompt and response of the pass-by-pass specification, and the prompt it was given |
| Improve.ValidEnds | try_final1.js:333 | a pass whose score and both verdicts are good ends the run successfully with that pass's texts |
| Improve.FailedStops | try_final1.js:323-324 | a failed correction request ends the run as a failure with the texts it had |
| Improve.Step | try_final1.js:325-335 | a pass that neither fails nor succeeds hands its corrected and annotated texts to the next pass; validators run only at or above 85 |
| Improve.SuccessIff | try_final1.js:321-336 | the run succeeds iff some pass succeeds and every earlier pass was answered without succeeding |
| Improve.StopsLater | try_final1.js:321-337 | a pass that continues to a failing run adds one correction to it |
| Improve.StopsAtFirstFailure | try_final1.js:323-324 | the first failed correction request ends the loop: the run fails after exactly that many corrections |
| Improve.AllBelowThreshold | try_final1.js:327-330 | if every pass scores below 85, the run fails after all passes with no validator call |
| Improve.FivePasses | try_final1.js:321 | at most five corrections; five corrections and no validation when every score is below 85 |
| Improve.SilentMeaningFails | try_final1.js:301-305 | if the meaning validator never answers, the sample never succeeds |
| Improve.SilentQualityPasses | try_final1.js:258-272 | if the quality validator never gives a usable verdict, the run succeeds iff some reached pass scores at least 85 and gets a valid meaning verdict |
| Driver.Written | try_final1.js:502-507 | both written texts are in sanitized shape; the prompt keeps the improved prompt's words followed by the question's words; the response keeps the improved response's words; domain and source are kept |
| Driver.WithQuestionKeepsText | try_final1.js:503 | appending the question keeps the prompt's words and adds the question's words after them |
| Driver.ProcessSample | try_final1.js:464-528 | one sample's record and success flag are those of its specification `SampleOutcome` |
| Driver.OutcomeShape | try_final1.js:499-528 | a record holds the sample's own domain and source and sanitized prompt and response; the loop returns the prompt it was given |
| Driver.ProcessSections | try_final1.js:458-531 | one record per sample, in order, each that sample's outcome; the failed list is the 1-based numbers of the samples that did not succeed |
| Driver.ProcessSamples | try_final1.js:454-531 | the same for a raw corpus after marker stripping and splitting |
| Driver.FailedNumbers | try_final1.js:509-511 | failed numbers strictly increase, lie in 1..n, and name exactly the failed samples |
| Driver.CountsAddUp | try_final1.js:542-544 | successes plus failures equal the number of samples |
| Driver.SummaryCounts | try_final1.js:539-545 | the summary total is the sample count; succeeded is the success count; succeeded plus failed is the total |
| Driver.ElapsedSplit | try_final1.js:534-537 | minutes and seconds are below 60; h:m:s is within one second below the elapsed time |
| Driver.ElapsedSplitUnique | try_final1.js:535-537 | these bounds determine h, m and s uniquely |
| RemoveSamples.FindSections | remove_samples.py:13-17 | spans are in order, do not overlap and each runs from `<SAMPLE>` to the first `<SOURCE>` after it |
| RemoveSamples.SectionsFacts | remove_samples.py:17 | matches are leftmost and lazy: no `<SAMPLE>` is skipped between matches, and none after the last one has a `<SOURCE>` |
| RemoveSamples.ExciseLength | remove_samples.py:19-29 | removing sections shortens the text by their total length |
| RemoveSamples.ExciseNothing | remove_samples.py:19-29 | removing no section leaves the text unchanged |
| RemoveSamples.ExciseOne | remove_samples.py:27-28 | removing one section is one slice-and-join |
| RemoveSamples.RemoveOneKeepsSource | remove_samples.py:27-28 | the removed span ends with `<SOURCE>`; the text after it moves up unchanged |
| RemoveSamples.PyCut | remove_samples.py:28 | within bounds, a cut is `text[:start] + text[end:]` |
| RemoveSamples.CutsFromTheBack | remove_samples.py:25-28 | cutting distinct sections from the highest index down removes exactly those sections |
| RemoveSamples.SortDescending | remove_samples.py:25 | a permutation of its input in descending order |
| RemoveSamples.SortDistinct | remove_samples.py:25 | distinct indices sort strictly descending |
| RemoveSamples.ValidZeroBasedSelects | remove_samples.py:25 | exactly the 1-based indices within range survive, shifted to 0-based |
| RemoveSamples.DeletionOrder | remove_samples.py:25 | a descending list of valid positions whose set is the selected one |
| RemoveSamples.RemoveSections | remove_samples.py:19-29 | the result is the cuts in deletion order; without repeats, exactly the selected sections are removed; nothing selected leaves the text |
| RemoveSamples.RepeatedIndexCutsTwice | remove_samples.py:25-28 | a repeated index cuts more than the one section it names |
| RemoveSamples.RangeList | remove_samples.py:63-69 | `range(lo, hi)` is `lo, lo+1, …, hi-1` |
| RemoveSamples.BuildIndexList | remove_samples.py:61-69 | the list is used as given; `--first N` gives 1..N; a range gives START..END, or a usage error when START > END; a falsy selection crashes |
| RemoveSamples.GeneratedListsDistinct | remove_samples.py:63-69 | `--first` and `--range` lists have no repeats |
| RemoveSamples.FirstSelects | remove_samples.py:63-64 | `--first N` selects the first min(N, count) sections |
| RemoveSamples.RangeSelects | remove_samples.py:66-69 | `--range S E` selects the existing sections S..E |
| RemoveSamples.RunCommand | remove_samples.py:60-72 | usage error and crash are reported as such; `--first` and `--range` remove exactly their sections; a list removes as `remove_sections` does |

## Left out

- Model requests (`openAiRequest`, the retry and back-off on rate limits, the quota handling, the prompts and temperatures) are not modelled. Each request is an oracle answer that either failed (`null`) or carries the reply text.
- The JSON5 parser is not modelled. The model takes its result as the oracle's `parsed` field, which `Improve.ParsedAs` ties to the clean-up.
- Improve.CheckAndCorrect: the spread `...m` could let a reply override `correctedPrompt` and `correctedResponse`; the model keeps only `percentageMatch` from the reply.
- Improve.QualityOf: the source takes the parsed object as it is. A verdict without an `issues` array would throw inside `addDetailCorrections`; the model assumes the documented shape.
- `categorizeIssues` is reduced to whether its list was non-empty, because only that decides anything in the pipeline.
- The conclusion starter (`conclusionStarters[i % length]`) appears only inside a model request, so it is not modelled.
- File reading and writing, the bootstrap stub for a missing input file, the debug switch and console output are not modelled. The summary text's formatting is modelled only as its counts and time split.
- Driver.ElapsedSplit: `Date.now()` is a parameter. The elapsed time is taken as non-negative.
- The command-line parsing of `remove_samples.py` (argparse, stdin/stdout, encodings) is not modelled. The parsed selection is the method's input.
- Strings are sequences of Unicode scalar values. JavaScript's UTF-16 code units and Python's `errors="ignore"` decoding are not modelled.
