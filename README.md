# ISM Manufacturing Report parser — a Dafny model

`export_ism_report_to_excel.py` reads the plain text of an ISM Manufacturing
Report and builds, for each survey indicator ("NEW ORDERS", "PRODUCTION", …),
an ordered dictionary from each of the 18 manufacturing industries to a
signed rank:

- an industry reported as growing gets a positive rank, by mention order;
- one reported as decreasing gets a negative rank;
- every other industry gets 0.

The script then writes one spreadsheet sheet per indicator. This project
models the text-processing core of that script in Dafny and proves what it
computes:

- `lists.dfy` (`Lists`): duplicate-freedom, order-preserving filtering and
  first-index lookup on sequences.
- `py_strings.dfy` (`PyStrings`): the Python `str` operations the script
  uses, on `seq<char>`: `in`, `split`, `replace` and `strip`. Whitespace is
  the `str.isspace()` set, by code point. `Join` (`sep.join(parts)`) is not
  called by the script; it is the inverse that specifies `split` and
  `replace`.
- `ordered_dict.dfy` (`OrderedDicts`): `collections.OrderedDict` as a
  sequence of (key, value) pairs. `d[k] = v` overwrites an existing key in
  place and appends a new one.
- `reference_lists.dfy` (`ReferenceLists`): the 18 industry names and the
  11 indicator headings.
- `classifier.dfy` (`SentenceClassifier`): `get_list_of_industries_from_sentence`.
- `ranks.dfy` (`RankBuilder`): `create_dict_of_industries`.
- `paragraph.dfy` (`ParagraphProcessor`): `process_paragraph`.
- `segmenter.dfy` (`ReportSegmenter`): the segmentation loop of the main
  program.
- `export.dfy` (`SheetExport`): the state label and the rows written to
  each sheet.

Python's `IndexError` is modelled as the `IndexError` case of the `Outcome`
datatype. It covers a paragraph without ".", a missing heading among the
first ten (the cut after it indexes piece `[1]` of a one-piece split), and
too few ".\n"-separated chunks. A missing last heading ("BUYING POLICY")
raises nothing by itself: the last paragraph is then picked, third from the
end, from `previous_text[1]`, the text after "IMPORTS" up to any further
"IMPORTS"; IndexError follows only when that text has fewer than three
".\n"-chunks (`ReportSegmenter.LastHeadingMissing`).

Each loop of the parsing core (lines 86-88, 99-110 and 160-170) is a
method with a `for` loop whose contract ties its result to a specification
function:

- `CollectNamed` (the fallback scan of `GetListOfIndustriesFromSentence`)
  to a filter of the reference list, and the whole method to
  `IndustriesInSentence`;
- `CreateDictOfIndustries` to `Ranks`;
- `Segment` to `Report`.

The list comprehensions of lines 64 and 80 are the functions
`NeutralIndustries` and `CleanPieces`. The row loop of lines 125-139 only
projects each dictionary entry to a row and is the pure function
`SheetExport.SheetRows`. The page loop of lines 153-154 and the sheet loop
of line 119 drive foreign libraries and are left out.

Lemmas then state what those functions promise.

Behaviour of the code worth knowing, which the model follows:

- Only the text between the first and second colon is classified, not
  everything after the first colon (`SentenceClassifier.SecondColonIgnored`).
- The single-name branch keeps " and "; only the `;`-list branch removes it.
- The segmenter continues from piece `[1]` of the previous split. That is
  the text up to the next copy of the same heading, not the whole remainder.
- A name in two lists is not an error. It keeps its first position and
  takes the last rank written (`RankBuilder.RanksDecreaseWins`,
  `OrderedDicts.AssignAllGet`).

## Model

| member | source | states |
|---|---|---|
| PyStrings.Contains | export_ism_report_to_excel.py:77 | `sub in s` holds exactly when `sub` occurs at some position of `s` |
| PyStrings.Split | export_ism_report_to_excel.py:56 | `str.split`: at least one piece; joining the pieces with the separator gives the input back; no piece contains the separator; more than one piece exactly when the separator occurs |
| PyStrings.SplitRest | export_ism_report_to_excel.py:56 | `str.split` cuts from the left: the first cut is at the leftmost occurrence of the separator and the remaining pieces are the split of what follows it |
| PyStrings.SplitCharCount | export_ism_report_to_excel.py:80 | splitting on a one-character separator gives one more piece than there are separator characters |
| PyStrings.Replace | export_ism_report_to_excel.py:80 | `str.replace` leaves a string without the target unchanged |
| PyStrings.ReplaceLeftmost | export_ism_report_to_excel.py:80 | `str.replace` works from the left: the text before the leftmost occurrence is kept, the occurrence becomes the replacement, and the rest is replaced in turn |
| PyStrings.ReplaceLeading | export_ism_report_to_excel.py:80 | a string that starts with the target and holds no other occurrence of it: the leading occurrence is replaced and the rest kept |
| PyStrings.ReplaceChar | export_ism_report_to_excel.py:83 | `replace("\n", " ")` turns exactly the newlines into spaces, character for character |
| PyStrings.Strip | export_ism_report_to_excel.py:80 | `str.strip` is a slice of the input with only whitespace cut on each side, and it neither starts nor ends with whitespace |
| PyStrings.SkipSpace | export_ism_report_to_excel.py:80 | the left end of `str.strip`: the first index at or after `i` that is not whitespace, with only whitespace skipped |
| PyStrings.SkipSpaceBack | export_ism_report_to_excel.py:80 | the right end of `str.strip`: the index just past the last non-whitespace character, with only whitespace skipped |
| PyStrings.StripSubset | export_ism_report_to_excel.py:80 | stripping introduces no character |
| OrderedDicts.AssignKeys | export_ism_report_to_excel.py:101 | `d[k] = v` keeps the keys of `d` when `k` is one of them, and otherwise appends `(k, v)` at the end |
| OrderedDicts.AssignGet | export_ism_report_to_excel.py:101 | after `d[k] = v`, `k` maps to `v` and every other key keeps its old value |
| OrderedDicts.AssignAllGet | export_ism_report_to_excel.py:97-110 | after a run of assignments every key holds the value written to it last, or its old value if never written |
| OrderedDicts.AssignAllKeysPrefix | export_ism_report_to_excel.py:97-110 | assignments never move or remove keys: the old keys are a prefix of the new ones |
| OrderedDicts.KeyPositionStable | export_ism_report_to_excel.py:97-110 | a key keeps the position of its first assignment through all later assignments |
| OrderedDicts.AssignAllNoDup | export_ism_report_to_excel.py:97-110 | assignments never duplicate a key |
| OrderedDicts.AssignAllKeys | export_ism_report_to_excel.py:97-110 | the keys afterwards are exactly the old keys and the written ones |
| OrderedDicts.AssignAllFresh | export_ism_report_to_excel.py:97-110 | when every written key is new, the dictionary is the old one with the writes appended in order |
| OrderedDicts.LastWins | export_ism_report_to_excel.py:97-110 | starting from an empty dictionary, a key holds the value of its last write |
| OrderedDicts.FreshGet | export_ism_report_to_excel.py:97-110 | starting from an empty dictionary with every written key distinct, each write is found under its key |
| OrderedDicts.GetAt | export_ism_report_to_excel.py:97-110 | in a dictionary without repeated keys every entry is what lookup finds under its key |
| ReferenceLists.IndustriesDistinct | export_ism_report_to_excel.py:16-33 | there are 18 reference industries, no two alike |
| ReferenceLists.IndicatorsDistinct | export_ism_report_to_excel.py:37-47 | there are 11 non-empty indicator headings, no two alike |
| SentenceClassifier.GetListOfIndustriesFromSentence | export_ism_report_to_excel.py:70-90 | the method returns exactly `IndustriesInSentence(sentence)`: the cleaned `;`-pieces after the colon, the one cleaned name after it, or the reference names found in the sentence |
| SentenceClassifier.CollectNamed | export_ism_report_to_excel.py:84-88 | the fallback scan loop keeps exactly the reference names that occur in the sentence, in reference order (a filter of the reference list) |
| SentenceClassifier.NoColonBranch | export_ism_report_to_excel.py:84-88 | without a colon the result is the reference industries occurring verbatim in the sentence, in reference order: only reference names, each once, at most 18, membership exactly "occurs in the sentence" |
| SentenceClassifier.ColonListBranch | export_ism_report_to_excel.py:79-80 | with a `;` after the colon there is one entry per `;`-piece (number of semicolons + 1); entry k is piece k with " and " removed, newlines made spaces and stripped; no entry has a newline |
| SentenceClassifier.ColonSingleBranch | export_ism_report_to_excel.py:81-83 | without a `;` the result is the one text after the colon, newlines made spaces and stripped, " and " kept |
| SentenceClassifier.ListedAndRemoved | export_ism_report_to_excel.py:80 | a `;`-piece without " and " is cleaned like a single name, and so is " and " followed by such a name (the last item of "A; B; and C"): its " and " is removed |
| SentenceClassifier.CleanedNameShape | export_ism_report_to_excel.py:80-83 | a name from either colon branch has no newline and no surrounding whitespace |
| SentenceClassifier.SecondColonIgnored | export_ism_report_to_excel.py:78 | anything after a second colon does not change the result |
| RankBuilder.CreateDictOfIndustries | export_ism_report_to_excel.py:92-112 | the three counting loops produce `Ranks`, the assignments `(growth[k], len(growth) - k)`, `(neutral[k], 0)`, `(decrease[k], -(k + 1))` performed in order on an empty dictionary |
| RankBuilder.RanksKeys | export_ism_report_to_excel.py:97-110 | whatever the lists hold, the keys are duplicate-free and are exactly the names of the three lists |
| RankBuilder.RanksOfDisjoint | export_ism_report_to_excel.py:99-110 | for duplicate-free, pairwise disjoint lists: size is the sum of the lengths, key order is growth then neutral then decrease, entry values `len(growth) - k`, 0, `-(k + 1)` |
| RankBuilder.RankSigns | export_ism_report_to_excel.py:99-110 | for such lists: rank > 0 iff growth, == 0 iff neutral, < 0 iff decrease; growth ranks at most `len(growth)`, decrease ranks at least `-len(decrease)` |
| RankBuilder.RanksGetGrowth | export_ism_report_to_excel.py:99-102 | for such lists the k-th growth name is ranked `len(growth) - k` |
| RankBuilder.RanksGetNeutral | export_ism_report_to_excel.py:104-105 | for such lists every neutral name is ranked 0 |
| RankBuilder.RanksGetDecrease | export_ism_report_to_excel.py:107-110 | for such lists the k-th decrease name is ranked `-(k + 1)` |
| RankBuilder.RanksGrowthPrefix | export_ism_report_to_excel.py:97-102 | whatever the other lists hold, a duplicate-free growth list is the start of the key order |
| RankBuilder.RanksDecreaseWins | export_ism_report_to_excel.py:107-110 | whatever the other lists hold, a name of a duplicate-free decrease list ends with its decrease rank (last write wins) |
| ParagraphProcessor.NeutralExactly | export_ism_report_to_excel.py:64 | the neutral list is exactly the reference industries in neither reported list, each once, in reference order |
| ParagraphProcessor.ProcessParagraph | export_ism_report_to_excel.py:56-68 | fails (IndexError) exactly when the paragraph has no "."; on success every reference industry is a key, whatever the classifier returned |
| ParagraphProcessor.ParagraphCoversReference | export_ism_report_to_excel.py:64-66 | when both sentences yield only reference names, the dictionary has exactly the 18 reference industries as keys, each once |
| ParagraphProcessor.NeutralDisjoint | export_ism_report_to_excel.py:64 | duplicate-free, disjoint reported lists and the neutral list together repeat no name |
| ParagraphProcessor.ReportedLayout | export_ism_report_to_excel.py:64-66 | for such reported lists the dictionary is the growth entries, then the neutral entries, then the decrease entries |
| ParagraphProcessor.ReportedRanks | export_ism_report_to_excel.py:64-66 | for such reported lists every industry is ranked as reported (`RankedAsReported`): growth by position from `len(growth)` down, decrease from -1 down, every other reference industry 0 |
| ParagraphProcessor.ParagraphLayout | export_ism_report_to_excel.py:56-68 | for a paragraph whose two sentences yield duplicate-free, disjoint lists, the result is growth, neutral, decrease entries in that order |
| ParagraphProcessor.ParagraphRanks | export_ism_report_to_excel.py:56-68 | for such a paragraph every industry is ranked as its sentences report |
| ReportSegmenter.SheetsFailurePersists | export_ism_report_to_excel.py:160-170 | once a step has raised IndexError the whole run has |
| ReportSegmenter.SheetsAppend | export_ism_report_to_excel.py:169-170 | a successful step stores its ranks under its label |
| ReportSegmenter.SheetsStepFails | export_ism_report_to_excel.py:169 | a failing step fails the whole run |
| ReportSegmenter.SheetsContents | export_ism_report_to_excel.py:160-170 | with distinct labels the run succeeds exactly when every step does, and then entry k is (label k, value of step k) |
| ReportSegmenter.CutAt | export_ism_report_to_excel.py:161-167 | one cut fails exactly when the specified paragraph does not exist (`previous_text[1]` or the negative chunk index is out of range); otherwise it returns that paragraph and the new `previous_text` |
| ReportSegmenter.Segment | export_ism_report_to_excel.py:159-170 | the loop returns exactly `Report(text)` |
| ReportSegmenter.SegmentSheets | export_ism_report_to_excel.py:159-170 | the run succeeds exactly when all ten steps do; then there are 10 sheets keyed by the first ten headings in order, "BUYING POLICY" is not a key, and sheet k holds step k's ranks |
| ReportSegmenter.HeadingMissing | export_ism_report_to_excel.py:161 | a heading missing from the text after the previous one raises nothing at its own cut: the whole remaining text becomes the only piece |
| ReportSegmenter.FirstHeadingMissing | export_ism_report_to_excel.py:159-161 | when the first heading ("NEW ORDERS") is missing, the first split has one piece and the first cut raises IndexError |
| ReportSegmenter.NextCutFails | export_ism_report_to_excel.py:161 | when one of headings 2-10 is missing, the next cut raises IndexError (it indexes piece 1 of a one-piece split) |
| ReportSegmenter.CutFailureEndsRun | export_ism_report_to_excel.py:160-170 | a cut that raises IndexError ends the whole run with IndexError |
| ReportSegmenter.LastHeadingMissing | export_ism_report_to_excel.py:161-163 | with "BUYING POLICY" missing, the last paragraph is the third-to-last ".\n"-chunk of `previous_text[1]` (the text after "IMPORTS" up to any further "IMPORTS"), with IndexError only for fewer than three chunks |
| ReportSegmenter.ParagraphShape | export_ism_report_to_excel.py:161-165 | a picked paragraph holds no ".\n", and the text it came from holds no copy of the next heading |
| ReportSegmenter.PiecesJoin | export_ism_report_to_excel.py:159-161 | each cut is undone by joining with its heading, which gives piece 1 of the previous cut |
| SheetExport.StateLabel | export_ism_report_to_excel.py:128-134 | "Growth" iff rank > 0, "Neutral" iff rank == 0, "Contraction" iff rank < 0 |
| SheetExport.SheetRows | export_ism_report_to_excel.py:125-139 | one row per dictionary entry, in dictionary order: row k holds the k-th industry, a label giving its rank's sign, and the rank |
| SheetExport.SheetLabels | export_ism_report_to_excel.py:125-137 | for duplicate-free, disjoint reported lists each row's label is "Growth" exactly for growing industries, "Contraction" exactly for decreasing ones and "Neutral" otherwise |

## Left out

- PDF opening and text extraction through `fitz` (lines 151-154) is a foreign library. The extracted text is the input of `ReportSegmenter.Segment`.
- Workbook creation and cell writes through `xlsxwriter` (lines 118-126, 136-141) are foreign I/O. Only the row contents are modelled (`SheetExport.SheetRows`).
- The row loop of lines 125-139 is the function `SheetExport.SheetRows`: the `row` counter and the order of the cell writes are not modelled, only the row contents.
- The filename prompt, the existence check and its exception (lines 145-148), the progress messages, the output-name `replace("pdf", "xlsx")` (line 173) and `sleep(5)` are command-line glue.
- `ProcessParagraph` uses the specification functions `IndustriesInSentence` and `Ranks`, not the methods. A function cannot call a method, and each method is proved to return exactly its function.
- `Segment` returns the dictionary instead of filling a module-level variable of the script.
- All failures collapse into one `IndexError` outcome. Which line raised it is not recorded.
- Python's `ValueError` for an empty separator cannot arise: every separator in the script is a non-empty constant.
- `RankBuilder.RanksOfDisjoint`: stated only for duplicate-free, pairwise disjoint lists. For overlapping lists, `AssignAllGet`, `KeyPositionStable`, `RanksGrowthPrefix` and `RanksDecreaseWins` state what happens.
- `ParagraphProcessor.ParagraphRanks`: stated only when the two sentences yield duplicate-free, disjoint lists, for the same reason. `ProcessParagraph` itself covers every paragraph.
- `ReportSegmenter.SegmentSheets`: success is stated per step (`StepResults`) and not as a condition on the headings in the text. Which texts contain every heading in order is not characterised.
