# Query classification pipeline: a Dafny model

This project models the deterministic core of a pipeline that sorts learners' chatbot queries
into a fixed taxonomy of twelve category codes (D.I, D.G, S.S, S.SL, S.EQ, E.RV, E.O, E.RF,
E.RH, R.ET, R.ES, OTHER) in five ordered groups, asks a chat model for one code per query,
and scores the answers against a hand-labelled reference.

It covers five Python files:

- `llm_helper.py` — module `LlmHelper`:
  - the taxonomy tables and the alias table that also accepts a code without its dot;
  - the parser of the interactive category menu;
  - the once-only cache of the chosen categories (class `SelectionCache`);
  - the renderer of the "# Categories" block;
  - the guards around one classification request.
- `csv_utils.py` — module `CsvUtils`:
  - loading a table by trying a list of encodings in order;
  - finding and removing duplicate rows, by whole row or by a key of columns;
  - the combined analysis.
- `evaluate.py` — module `Evaluate`:
  - the reference labels and the predictions, each loaded into an insertion-ordered
    dictionary;
  - pairing them by entry id;
  - the sorted label universe of the confusion matrix.
- `helper.py` — module `Helper`: classifying every row of a frame, with the keyword block,
  the two placeholder replacements and the mapping of failures to "OTHER" and "ERROR".
- `analyze_errors.py` — module `AnalyzeErrors`:
  - the per-label error table read off a confusion matrix, sorted by error rate;
  - the three worst labels, with what they were mistaken for;
  - the labels never predicted.

Shared modules:

- `Wrappers`: `Option` and `Result`.
- `Text`: the Python `str` operations the code relies on: `strip`, `split`, `join`, `find`,
  `replace`, ASCII `upper`/`lower`, digit parsing and lexicographic order.
- `Frame`: a table of cells with named columns, the part of a pandas frame the code uses.

The chat model and the language identifier are oracles `string -> Option<string>`: `None`
stands for a call that raised, `Some(t)` for the text returned. The answer typed at the menu
is a parameter `Option<string>`: `None` stands for end of input or an interrupt. Reading a file
is a `present` flag plus an oracle from encoding to parsed table.

Code that changes state step by step is modelled as methods with loops, each proved against a
specification function. These are:

- the alias table;
- the menu parser;
- the category block;
- the encoding loop;
- the two dictionary loaders;
- the id matching;
- the row classification;
- the error-rate loop;
- the loop over the three worst labels.

The selection cache is a class whose methods update its field. Everything else is functions
and lemmas.

## Model

| member | source | states |
|---|---|---|
| LlmHelper.CategoryOrderIsFlattened | llm_helper.py:110-119 | `CATEGORY_ORDER` is the group code lists concatenated in group order: 12 pairwise-distinct codes |
| LlmHelper.EveryCodeDescribed | llm_helper.py:17-119 | every code of `CATEGORY_ORDER` has a metadata entry |
| LlmHelper.BuildAliases | llm_helper.py:121-126 | the module-level loop builds exactly the alias table `AliasTable(CategoryOrder)` |
| LlmHelper.AliasTableMapsBack | llm_helper.py:121-126 | when the codes' alias sets are pairwise disjoint, every alias of every code maps back to that code, and every key of the table is an alias of the code it maps to |
| LlmHelper.CodeAliases | llm_helper.py:123-126 | the aliases of each code are exactly the code itself and its dot-free spelling (e.g. "D.I" and "DI") |
| LlmHelper.AliasesDisjoint | llm_helper.py:121-126 | no two codes share an alias, so no insertion overwrites another code's entry |
| LlmHelper.AliasesResolve | llm_helper.py:121-126 | each code is found under its upper-case form and under its dot-free form; every key of the table names a code of `CATEGORY_ORDER` of which it is an alias |
| LlmHelper.ShortDescription | llm_helper.py:179-186 | empty text gives ""; text without '.' is returned whole; otherwise the result is the prefix ending at the first '.' |
| LlmHelper.ResolveTokenSpec | llm_helper.py:213-221 | a token resolves only to a code of `CATEGORY_ORDER` (a number 1..12 by position, otherwise an alias after upper-casing and removing spaces) |
| LlmHelper.ResolvedSpec | llm_helper.py:213-221 | the resolved codes are exactly the codes some token resolves to |
| LlmHelper.FirstOccurrencesSpec | llm_helper.py:222-224 | keeping the first occurrence of each code gives a duplicate-free list with the same members, in order of first appearance |
| LlmHelper.ChosenSpec | llm_helper.py:210-224 | the chosen list is duplicate-free, holds only codes of `CATEGORY_ORDER`, and holds exactly the codes some token resolves to |
| LlmHelper.SelectionIsValid | llm_helper.py:199-230 | whatever the answer, the selection is non-empty, duplicate-free and within `CATEGORY_ORDER` |
| LlmHelper.SelectionDefaultsToAll | llm_helper.py:203-228 | end of input, an empty answer, "all"/"*" in any case, or an answer no token of which resolves all give the full `CATEGORY_ORDER` |
| LlmHelper.SelectionFollowsTokens | llm_helper.py:210-230 | otherwise the selection is the chosen list of the answer's tokens |
| LlmHelper.ChooseCodes | llm_helper.py:211-224 | the loop over tokens with its `chosen` list and `seen` set computes the first occurrences of the resolved codes |
| LlmHelper.ParseSelection | llm_helper.py:189-230 | the menu parser returns `SelectionOf(answer)`, a valid selection |
| LlmHelper.SelectionCache.constructor | llm_helper.py:128 | the cache starts empty |
| LlmHelper.SelectionCache.GetActive | llm_helper.py:233-242 | the first call stores and returns the parsed selection; later calls return the stored codes whatever the answer |
| LlmHelper.SelectionCache.GetSelected | llm_helper.py:262-265 | returns the cached codes as a value; the cache keeps them |
| LlmHelper.SelectionIsStable | llm_helper.py:233-242 | over one run a second call returns the same codes as the first, whatever answer it is given |
| LlmHelper.CollectLines | llm_helper.py:248-258 | the outer loop over the groups appends exactly the rendered blocks of the groups |
| LlmHelper.AppendGroup | llm_helper.py:249-258 | one group contributes nothing when none of its codes is selected, otherwise its heading, one line per selected code with metadata, and an empty line |
| LlmHelper.BuildCategorySection | llm_helper.py:245-259 | the section is the "# Categories" line and the group blocks joined by newlines, with trailing whitespace removed |
| LlmHelper.GroupBlocksEntries | llm_helper.py:248-258 | the entry lines of the block are the selected codes in group order, one line each |
| LlmHelper.PickedInOrder | llm_helper.py:249 | the selected codes of a group keep the group's order |
| LlmHelper.BlockEntries | llm_helper.py:245-259 | for any grouping of distinct described codes, the entries list exactly the selected codes, duplicate-free and in taxonomy order, each as "- title (code): description" |
| LlmHelper.SectionEntries | llm_helper.py:245-259 | the same for the taxonomy's own groups |
| LlmHelper.HeadingsOfGroups | llm_helper.py:250-252 | a group heading appears exactly when some group of that name has a selected code |
| LlmHelper.SectionHeadings | llm_helper.py:250-252 | group k's heading is among the section's lines (`SectionLines`, the list before it is joined and right-stripped) exactly when one of its codes is selected |
| LlmHelper.SectionStartsWithTitle | llm_helper.py:247-259 | the section always starts with "# Categories" |
| LlmHelper.RenderSlots | llm_helper.py:281-284 | `str.format` puts the two values at fixed places, and the message determines both values once the section's length is known |
| LlmHelper.RequestFor | llm_helper.py:278-284 | the request carries the rendered section of the cached selection and "- " plus the text |
| LlmHelper.ClassifyWith | llm_helper.py:272-295 | blank or missing text gives "OTHER" without touching the cache or calling the model; otherwise the selection is cached, one request is built, and the result is the stripped reply or "ERROR" on failure |
| LlmHelper.ClassifyPrompt | llm_helper.py:272-295 | the same for the taxonomy's own groups and metadata: blank text gives "OTHER" untouched, an already cached selection is kept, a first call caches the parsed answer, and the result is the stripped reply or "ERROR" |
| LlmHelper.DetectLanguage | llm_helper.py:298-309 | missing or blank text is "unknown" without asking the identifier; a failing identifier gives "error" |
| CsvUtils.FirstReadSpec | csv_utils.py:33-45 | the first successful read is at the lowest index that reads; no read succeeds exactly when every encoding fails |
| CsvUtils.CsvToDf | csv_utils.py:27-47 | a missing file fails before any read; otherwise the encodings are tried in order and the first table read is returned, or the unreadable error after five attempts |
| CsvUtils.LoadOutcomeSpec | csv_utils.py:27-47 | loading succeeds exactly when the file exists and some encoding reads; the error is "unreadable" exactly when all five fail; a loaded table is the first encoding's that reads |
| CsvUtils.MarkSeenSpec | csv_utils.py:68-74 | a row is flagged exactly when its key was seen before it |
| CsvUtils.MarkSeenFromEndSpec | csv_utils.py:122-126 | with keep='last', a row is flagged exactly when its key occurs again after it |
| CsvUtils.DuplicatedSpec | csv_utils.py:122-126 | `duplicated(keep=…)` flags each row as `Repeated` says, for 'first', 'last' and False |
| CsvUtils.TrueIndicesSpec | csv_utils.py:82 | the indices of the flagged rows, increasing, as many as there are flags |
| CsvUtils.SelectSpec | csv_utils.py:82 | boolean selection keeps exactly the flagged rows, in order |
| CsvUtils.PercentageBounds | csv_utils.py:79 | the duplicate percentage lies in [0, 100] and is 0 exactly when there is no duplicate; an empty table gives 0 without dividing |
| CsvUtils.CheckDuplicatesSpec | csv_utils.py:66-91 | on a frame with rows, a key naming an unknown column fails with `KeyError` and an empty key with `ValueError`, and a frame without rows never fails; otherwise duplicates + uniques = total, and the indices are exactly the rows whose key occurs earlier, in increasing order |
| CsvUtils.RemoveDuplicatesSpec | csv_utils.py:108-129 | fails exactly as the check does; otherwise the same columns, and exactly the rows not repeated under `keep`, in their original order |
| CsvUtils.RemovedHasDistinctKeys | csv_utils.py:108-129 | after removal no two rows share a key |
| CsvUtils.DistinctKeysUntouched | csv_utils.py:66-129 | a table without repeated keys has no duplicates and is returned unchanged |
| CsvUtils.RemoveDuplicatesIdempotent | csv_utils.py:120-129 | after removal a check on the same key finds no duplicate, and a second removal changes nothing |
| CsvUtils.RemoveDuplicatesKeys | csv_utils.py:108-129 | keeping 'first' or 'last' keeps every key; keeping none keeps exactly the keys that occur once |
| CsvUtils.AnalysisSubsetKnown | csv_utils.py:159-162 | the analysis keys on `[text_column]` exactly when it is given, non-empty and a column, so it never names an unknown column and is never empty |
| CsvUtils.EmptyFrameAccepted | csv_utils.py:66-129 | a frame without rows is never refused, whatever the key names: the check counts nothing and removal returns the frame unchanged |
| CsvUtils.AnalyzeCsv | csv_utils.py:139-166 | a load failure is passed on; otherwise the loaded table and its duplicate check on that key |
| Evaluate.OrderedMap.PutValid | evaluate.py:23 | storing into a dict keeps keys unique and in insertion order |
| Evaluate.OrderedMap.ValuesSpec | evaluate.py:49 | `dict.values()` lists exactly the stored values |
| Evaluate.ParseIntRoundTrip | evaluate.py:21 | `int()` reads back the decimal text of any integer |
| Evaluate.StoredHas | evaluate.py:17-25 | a key is stored exactly when some row yields an entry for it |
| Evaluate.StoredLast | evaluate.py:23 | the value stored for a key is the last row's for that key |
| Evaluate.LoadGroundTruth | evaluate.py:14-27 | a frame without position 0, or without position 1 while some row's first cell is present, raises `KeyError` outside the `try`; otherwise the row loop builds `GroundTruthOf(rows)` |
| Evaluate.GroundTruthHas | evaluate.py:19-25 | an id is loaded exactly when some row has both cells, is not the header, parses as an integer and has a text category |
| Evaluate.GroundTruthLast | evaluate.py:22-23 | a later row with the same id overwrites an earlier one |
| Evaluate.GroundTruthCategoriesTrimmed | evaluate.py:22 | a stored category neither starts nor ends with a double quote |
| Evaluate.LoadPredictions | evaluate.py:35-42 | the row loop builds `PredictionsOf(t, n)`, in which a row with a missing (NaN) id stores under a key of its own, and returns the frame too |
| Evaluate.PredictionsHas | evaluate.py:36-40 | without both columns the map is empty; with them an id is stored exactly when some row carries it |
| Evaluate.PredictionsLast | evaluate.py:38-40 | the stored category is the last row's for that id |
| Evaluate.PredictionsKeepMissingIds | evaluate.py:37-40 | rows whose id is NaN are not merged, since NaN equals no other key: each keeps its own `Category` cell |
| Evaluate.PredictedLabelsSpec | evaluate.py:49 | the prediction labels are exactly the labels of the stored values |
| Evaluate.PairByIds | evaluate.py:52-58 | the loop pairs, in ground-truth order, each truth label with the prediction for the same id |
| Evaluate.CreateConfusionMatrix | evaluate.py:45-79 | mixed text and number labels fail to sort; no common id gives the no-match result; otherwise the paired labels and the label universe |
| Evaluate.MatchedIdsSpec | evaluate.py:55-58 | the matched ids are exactly the ids in both maps, without repeats, no more than either map holds |
| Evaluate.MatchedPredictionsAreText | evaluate.py:49 | when the labels sort, a matched prediction is text |
| Evaluate.LabelUniverseSpec | evaluate.py:49 | the categories are strictly sorted and are exactly the truth labels and the prediction labels |
| Evaluate.SortedUniqueSpec | evaluate.py:49 | `sorted(set(xs))` is strictly increasing with the members of `xs` |
| Helper.FillPromptSlots | helper.py:91-93 | when the template and keywords contain no '[', the prompt is the template with the keywords and the document block in the two slots |
| Helper.FillPromptRescansKeywords | helper.py:92-93 | the second replace runs over the first one's output: a keyword block containing "[DOCUMENTS]" is replaced by the document block too |
| Helper.KeywordsShape | helper.py:89 | each keyword has no whitespace and neither starts nor ends with one of " ,.;:!?" |
| Helper.KeywordBlockFallback | helper.py:89-90 | at most five keywords; "General Query" exactly when the text is one word made only of " ,.;:!?" |
| Helper.KeywordBlockOneLine | helper.py:89-90 | the keyword block has no newline |
| Helper.SentSpec | helper.py:83-102 | one request per row with text, each a row's prompt; no request when every row is blank |
| Helper.RequestOfSpec | helper.py:83-93 | blank or missing text sends nothing; other text sends the template filled with its keyword block and "- " plus the stripped text |
| Helper.RowSpec | helper.py:83-105 | blank text gives "OTHER"; a failed call "ERROR"; otherwise the stripped reply, unvalidated |
| Helper.AssignColumnSpec | helper.py:107 | the labelled copy keeps every other cell, adds the column only when missing, and reads back the given labels |
| Helper.ClassifyRow | helper.py:83-105 | one row's category and the request it sends |
| Helper.ClassifyRows | helper.py:81-105 | the loop produces one category per row, in row order, and sends the prompts of the non-blank rows |
| Helper.ClassifyDocumentsWith | helper.py:77-107 | a missing text column fails with the message, before any request; otherwise the copy with the "Category" column and the requests sent |
| Helper.ClassifyDocuments | helper.py:68-114 | the same for the program's own template |
| Text.StripShape | helper.py:84 | `strip()` removes exactly the leading and trailing whitespace |
| Text.StripIdempotent | helper.py:84 | stripping twice is stripping once |
| Text.SplitWords | helper.py:89 | `split()` gives non-empty words without whitespace |
| Text.SplitEmptyIffBlank | helper.py:84-89 | a text splits into no words exactly when it is blank |
| Text.JoinEmptyIff | helper.py:90 | a join is empty exactly when there is nothing or only "" to join |
| Text.Find | llm_helper.py:183 | `find` gives -1 when absent, otherwise the first position of the character |
| Text.ReplaceCharRemoves | llm_helper.py:125 | replacing a character removes every occurrence and keeps every other character |
| Text.UpperSpec | llm_helper.py:123 | ASCII upper-casing, character by character |
| Text.LowerSpec | llm_helper.py:207 | ASCII lower-casing, character by character |
| Text.DecimalRoundTrip | evaluate.py:21 | the decimal text of a number reads back as that number |
| Text.LexLessTransitive | evaluate.py:49 | string order is transitive |
| Text.LexLessTotal | evaluate.py:49 | two different strings are ordered one way or the other |
| Frame.IndexOf | evaluate.py:38-39 | the first position of a column name, or the length when absent |
| Frame.Column | helper.py:83 | a column has one cell per row |
| AnalyzeErrors.ErrorRates | analyze_errors.py:12-30 | the loop over the index builds `ErrorRatesOf(m, n)` or stops at the first `KeyError` |
| AnalyzeErrors.ErrorRatesFail | analyze_errors.py:15-20 | the loop raises `KeyError` exactly when some row with samples has no column of its own, naming a label of the index |
| AnalyzeErrors.ErrorRatesEntries | analyze_errors.py:15-30 | every entry reports a row: its label, a positive total, its diagonal cell as Correct, Correct ≤ Total and Correct + Wrong = Total |
| AnalyzeErrors.ErrorRatesCover | analyze_errors.py:14-30 | every row with samples has its entry |
| AnalyzeErrors.ErrorRatesSkip | analyze_errors.py:17-18 | a row summing to 0 produces no entry |
| AnalyzeErrors.RateAtLeastTransitive | analyze_errors.py:33 | comparing error rates as fractions by cross-multiplication is transitive |
| AnalyzeErrors.SortByRateSpec | analyze_errors.py:33 | the sorted table is a permutation of the entries, highest error rate first |
| AnalyzeErrors.TopThreeAreWorst | analyze_errors.py:41 | `head(3)` takes min(3, n) entries of the table, and no entry left out has a higher rate than one kept |
| AnalyzeErrors.OffDiagonalMembers | analyze_errors.py:50-51 | the list holds exactly the other columns with a positive count |
| AnalyzeErrors.SortByCountSpec | analyze_errors.py:51 | sorting by count is a permutation, highest count first |
| AnalyzeErrors.MisclassifiedRow | analyze_errors.py:50-51 | for one row: never the label itself, only positive counts, every other positive column, highest first, and the counts add up to the row total less the diagonal |
| AnalyzeErrors.MisclassifiedAsSpec | analyze_errors.py:41-57 | for an entry of the table the "misclassified as" counts add up to its Wrong |
| AnalyzeErrors.NeverPredictedAsWrittenSpec | analyze_errors.py:66-79 | once the loop has passed, every label of the set has no samples, so nothing under it prints; when the row labels are all columns the set is empty |
| AnalyzeErrors.NeverPredictedMissesUnpredictedLabel | analyze_errors.py:70-81 | for labels ["A","B"] and counts [[1,0],[1,0]] the set as written is empty while "B" was never predicted, and the script's report succeeds carrying that empty set |
| AnalyzeErrors.NeverPredictedSpec | analyze_errors.py:62-75 | corrected: a label is never predicted exactly when it has samples and its column, if any, is all zero |
| AnalyzeErrors.DetailsOf | analyze_errors.py:41-51 | one detail per worst label, in order |
| AnalyzeErrors.Analyze | analyze_errors.py:12-81 | the script from the loop on yields `ReportOf(m)`: the `KeyError` of the loop, the `KeyError('Error_Rate_%')` of sorting an empty table, or the sorted table, the worst three with their lists and `set(index) - set(columns)` as written |
| AnalyzeErrors.ReportFails | analyze_errors.py:14-33 | the script stops with `KeyError` exactly when some row with samples has no column of its own or no row has samples at all |
| AnalyzeErrors.IntendedReportSpec | analyze_errors.py:62-81 | corrected: the intended report fails exactly as the script does and keeps its table and details, and lists a label exactly when it has samples and its column, if any, is all zero |

## Left out

- The chat-model calls (`llm_helper.py:285-292`, `helper.py:95-102`), the fastText model (`llm_helper.py:10`, `303-305`) and the client construction are oracles. The model, temperature and token limit are not modelled.
- Reading the configuration and the API key (`llm_helper.py:12-15`, `helper.py:10-13`) is file I/O and is not modelled.
- Menu printing, the "Using categories" summary and every other `print` are not modelled; the typed answer is a parameter.
- pandas parsing of CSV and Excel files is not modelled: the parsed table is given, and reading with one encoding is an oracle. Exceptions other than a decoding failure are treated as a failed attempt, as the source does.
- Cells are text, integers or missing (`Frame.Cell`). Floating-point cells are not modelled: a column pandas reads as float64, such as an `entryId` column with a NaN, is modelled with integer cells, and `str()` of a float ("1.0") is not.
- A frame with rows but no columns counts as empty in pandas; the duplicate operations treat it as a frame with rows. read_csv never produces one.
- Percentages and rounding are real arithmetic or not modelled at all. This covers the duplicate percentage and its rounding, accuracy and `classification_report`, and the error-rate percentages. The error table is ordered by the exact fraction Wrong/Total; rounding to one decimal is monotone, so that order is also an order the rounded column allows.
- `sort_values` in pandas is not stable. Both sorts in `AnalyzeErrors` are stable insertion sorts, which are one of the orders pandas may return, so ties are not modelled beyond that.
- scikit-learn's `confusion_matrix` is not modelled: `CreateConfusionMatrix` returns the paired labels and the label universe the matrix is built from.
- Plotting and file export (`evaluate.py:82-95`, `137-140`; `helper.py:109-112`) are not modelled. Also not modelled: `evaluate.py` writes `o4_mini_confusion_matrix.csv` while `analyze_errors.py` reads `confusion_matrix.csv`; the model takes the matrix as given.
- `main.py`, `python-2/py2.py` and `topic_modeling.py` are not part of this model.
- Frames are rectangular: every row has a cell per column. The helper.py operations require this (`Frame.Rectangular`).
- Helper.AssignColumn sets the first column of that name; pandas with duplicate column names would set them all.
- CsvUtils.KeyOf: a subset name that appears twice among the columns keys on the first such column only; pandas keys on every column of that name. The program's frames come from `read_csv`, which renames repeated headers ("a", "a.1"), so it never meets this case.
- AnalyzeErrors.WellFormed requires distinct labels on both axes. With a repeated label, `cm_df.loc[label]` returns a frame and the script takes other paths.
- Helper.FillPromptSlots is stated for any template without '[' outside its two placeholders. That the program's own template is such a template is not proved: the literal is over 2000 characters, and scanning it is too expensive for the verifier.
- The listing under the never-predicted heading (`analyze_errors.py:73-79`) is printing. The report carries the set as written, whose members have no samples once the loop has passed (`NeverPredictedAsWrittenSpec`), so the listing prints no label.
- Evaluate.CreateConfusionMatrix models the sort failure on mixed text and number labels as an error. Python's full ordering of other label types is not modelled.
- LlmHelper.ParseSelection: tokens are read with ASCII digits and ASCII upper-casing only. Python's `isdigit()` also accepts other decimal digits ("１", "١", which select by number) and superscripts ("²", on which `int()` raises a `ValueError` nobody catches, so `classify_prompt` stops), and `upper()` maps "ß" to "SS" and "ı" to "I". The model drops all such tokens; a Unicode character table is out of reach here.
- LlmHelper.ResolveToken: the same ASCII restriction; a non-ASCII digit or a letter that upper-cases to ASCII resolves to nothing in the model.
- Evaluate.ParseInt: ASCII digits with an optional sign and surrounding whitespace only; `int()` also reads underscores between digits ("1_000") and non-ASCII decimal digits, which the model reads as `ValueError`.
- LlmHelper.DetectLanguage: the identifier oracle returns the predicted label text, and the confidence value (`llm_helper.py:305`) is not modelled; the source does not use it.

## Findings

| source | as written | input that shows it | evidently intended | confidence | as-written member | corrected member |
|---|---|---|---|---|---|---|
| analyze_errors.py:70 | `never_predicted` is the set of row labels that are not column labels. The matrix is written at evaluate.py:138 with the same labels on both axes, so this set is always empty. Even on other matrices, any label in it with samples has already raised `KeyError` at line 20, so lines 73-79 can never print a label. | labels ["A", "B"], counts [[1, 0], [1, 0]]: "B" has one sample and is never predicted, yet the script prints "All true labels were predicted at least once" | the labels with samples whose predicted-label column is all zero | medium, not executed | AnalyzeErrors.NeverPredictedMissesUnpredictedLabel | AnalyzeErrors.IntendedReportSpec |
