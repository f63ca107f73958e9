# QCM Master: a Dafny model of the quiz core

QCM Master turns pipe-delimited multiple-choice quiz text into printable
exams and runs an interactive exam over it. It has two front ends:

- `qcm_web_app.py`, a Streamlit application. It parses the questions, prints
  the answer statistics, generates an exam page with an answer sheet and a
  correction table, lets a user sit the exam, scores it and produces a
  result report.
- `csv_2_html.py`, a Tkinter application. It computes the same statistics
  and generates a "classic" exam page.

Both front ends apply the same row rules with their own loops:

- the header row is dropped and rows with fewer than 7 cells are skipped;
- a row with at least 9 cells has six options (cells 1-6), its answer in
  cell 7 and its explanation in cell 8;
- a shorter row has four options (cells 1-4), its answer in cell 5 and its
  explanation in cell 6.

This project models that core on the rows the CSV reader yields
(`seq<seq<string>>`). Every row loop is an imperative Dafny method. Each such
method is proved equal to a specification function of its input. Lemmas
about those functions state what the program promises:

- the statistics agree with the parsed records;
- the two answer normalisations agree;
- questions are numbered consecutively, with one correction row and one
  answer-sheet row each;
- empty options are omitted while the others keep their letter;
- a stored answer is the sorted selected letters;
- the score counts exactly the questions the report marks correct;
- each option shows exactly one of the three report boxes.

Modules:

- `AsciiText` (`ascii_text.dfy`): `str.strip()`, `str.upper()` and
  `str.replace(c, '')` on ASCII.
- `QcmRows` (`qcm_rows.dfy`): the rules shared by both files. These are row
  acceptance, the cell layout, answer normalisation, the statistics
  specification and the row loops' bodies, plus the question blocks and
  correction rows of the generated documents.
- `QcmWebApp` (`qcm_web_app.dfy`): `parse_csv`, `perform_stats`,
  `generate_html_content` and `generate_answer_sheet`.
- `QcmExam` (`qcm_exam.dfy`): the exam view's answer capture, the scoring
  loop and `generate_result_report`.
- `Csv2Html` (`csv_2_html.dfy`): `calculate_stats` and `generate_html`.

The documents are modelled by their structure, not their markup:

- the exam pages are sequences of question blocks, each with a number, a
  text and lettered options;
- the correction table is a sequence of (number, answer, explanation) rows;
- the answer sheet is a sequence of (number, boxes) rows;
- the report is a sequence of entries with one box per option.

## Model

| member | source | states |
|---|---|---|
| AsciiText.Strip | qcm_web_app.py:154 | `strip()` returns a string no longer than its input that is empty or neither starts nor ends with whitespace |
| AsciiText.StripSlice | qcm_web_app.py:154 | `strip()` removes exactly the whitespace runs at both ends: the result is the slice of the input between them, and it is empty exactly when the input is all whitespace |
| AsciiText.StripIdempotent | qcm_web_app.py:109 | stripping an already stripped cell changes nothing |
| AsciiText.StripUnchanged | qcm_web_app.py:157 | a string with no whitespace at either end is its own strip |
| AsciiText.RemoveSpec | qcm_web_app.py:157 | `replace(c, '')` removes every `c`, keeps every other character, and leaves a string without `c` unchanged |
| AsciiText.Remove | qcm_web_app.py:157 | `replace(c, '')` never lengthens the string; RemoveSpec states which characters it removes and keeps |
| AsciiText.RemoveCommutes | qcm_web_app.py:140 | removing two characters gives the same string in either order |
| AsciiText.UpperSpec | qcm_web_app.py:157 | `upper()` maps each character on its own and leaves no lower-case letter |
| AsciiText.Upper | qcm_web_app.py:157 | `upper()` keeps the length; UpperSpec states the character-by-character mapping |
| AsciiText.UpperRemoveCommute | qcm_web_app.py:140 | upper-casing commutes with removing a caseless character |
| AsciiText.UpperUnchanged | qcm_web_app.py:157 | a string without lower-case letters is its own upper-case form |
| AsciiText.UpperKeepsCaseless | qcm_web_app.py:157 | upper-casing neither creates nor removes a space or a comma |
| QcmRows.Keep | qcm_web_app.py:152-153 | skipping short rows keeps no more rows than it is given, and each kept row has at least 7 cells |
| QcmRows.DropHeader | qcm_web_app.py:150 | `next(reader, None)`: the first row is dropped, and nothing happens to an empty input (definition; AcceptedRowsMembership states its effect) |
| QcmRows.KeepMembership | qcm_web_app.py:153 | a row is kept exactly when it is present and has at least 7 cells |
| QcmRows.KeepConcat | qcm_web_app.py:152-153 | filtering keeps input order: the rows kept from a concatenation are those kept from each part, in order |
| QcmRows.KeepFirstIsKeep | qcm_web_app.py:152-153 | the rows a loop has kept after `n` steps are the kept rows of the first `n` rows |
| QcmRows.LoopKeepsAccepted | qcm_web_app.py:150-153 | after its last step a row loop holds exactly the accepted rows |
| QcmRows.AcceptedRows | qcm_web_app.py:150-153 | after the header is dropped, every accepted row has at least 7 cells, and fewer rows are accepted than given unless there are none |
| QcmRows.AcceptedRowsMembership | qcm_web_app.py:150-153 | a row is a question exactly when it follows the header and has at least 7 cells |
| QcmRows.OptionCount | qcm_web_app.py:155-160 | a row has 6 options exactly when it has at least 9 cells and 4 exactly when it has fewer, and the options, answer and explanation all fit in the row |
| QcmRows.Options | qcm_web_app.py:156 | a row has as many option texts as its layout says |
| QcmRows.LayoutRule | qcm_web_app.py:155-162 | six options from cells 1-6, the answer from cell 7 and the explanation from cell 8 for a row of at least 9 cells; otherwise four options from cells 1-4, the answer from cell 5 and the explanation from cell 6; every option is its stripped cell |
| QcmRows.LaterCellsIgnored | qcm_web_app.py:155-162 | cells after the explanation are never read: a row lays out as its first 9 (or 7) cells do |
| QcmRows.NormalizeAnswer | qcm_web_app.py:157 | parse_csv's normalisation: strip, remove spaces, remove commas, upper-case (definition; NormalizedAnswerShape and NormalizeIdempotent state its properties) |
| QcmRows.StatsAnswer | csv_2_html.py:66 | the statistics' normalisation: strip, upper-case, remove commas, remove spaces (definition; NormalisationOrdersAgree equates it with NormalizeAnswer) |
| QcmRows.NormalizedAnswerShape | qcm_web_app.py:157 | a normalised answer holds no space, no comma and no lower-case letter |
| QcmRows.NormalisationOrdersAgree | qcm_web_app.py:140 | the statistics' normalisation (strip, upper, remove ',', remove ' ') gives the same string as parse_csv's (strip, remove ' ', remove ',', upper) |
| QcmRows.NormalizeIdempotent | qcm_web_app.py:161 | normalising a normalised answer changes nothing, provided it does not start or end with whitespace other than a space |
| QcmRows.NormalizeNotIdempotent | qcm_web_app.py:157 | without that proviso a second normalisation can change the answer: `",\tA"` becomes `"\tA"` and then `"A"` |
| QcmRows.LetterFilter | qcm_web_app.py:143-144 | the filtered letters are no more than the answer's characters |
| QcmRows.LetterFilterSpec | qcm_web_app.py:143-144 | the filter keeps exactly the A-F characters of the answer |
| QcmRows.CollectLetters | qcm_web_app.py:143-144 | the letter loop appends exactly the answer's A-F letters, in order, to the collected list |
| QcmRows.CountAnswer | qcm_web_app.py:141-144 | one answer adds one to `total`, one to `multi` when it is longer than one character and to `single` otherwise, and its A-F letters (definition; AnswerStats and StatsAgreeWithParse state the totals) |
| QcmRows.StatsStep | qcm_web_app.py:139-144 | one question row counts its answer cell (cell 7 or 5) as the statistics normalise it (definition; CountRow is proved equal to it) |
| QcmRows.AnswerStats | qcm_web_app.py:139-142 | counting answers in order gives `total` equal to the number of answers and to `single + multi` |
| QcmRows.StatsOf | qcm_web_app.py:136-142 | the statistics of the question rows have `total` equal to the number of questions and to `single + multi` |
| QcmRows.AnswerStatsLetters | qcm_web_app.py:143-144 | every collected letter is one of A-F |
| QcmRows.StatsOfKeptStep | qcm_web_app.py:137-144 | a question row adds exactly its own step to the statistics of the rows kept before it |
| QcmRows.CountRow | qcm_web_app.py:139-144 | one step of the statistics loop counts the row, classifies its normalised answer as multiple (more than one character) or single, and appends its A-F letters |
| QcmRows.CountsSumToLength | qcm_web_app.py:145 | the `Counter` of A-F letters has per-letter counts that add up to the number of letters |
| QcmRows.Tally | qcm_web_app.py:145 | `Counter(all_ans)`: each letter that occurs mapped to its number of occurrences (definition; CountsSumToLength states its total) |
| QcmRows.LetterCodes | qcm_web_app.py:174 | each letter's mapping index is its position in A-F |
| QcmRows.Emitted | qcm_web_app.py:115-116 | no more options are emitted than there are options |
| QcmRows.EmittedFromOptions | qcm_web_app.py:115-116 | every emitted option is the non-empty option at its letter's position |
| QcmRows.EmittedAscending | qcm_web_app.py:115-116 | emitted letters strictly ascend |
| QcmRows.EmittedComplete | qcm_web_app.py:115-116 | an option is emitted under its own letter exactly when it is non-empty |
| QcmRows.EmittedKeepsPositions | qcm_web_app.py:115-116 | empty options are omitted, every non-empty option is emitted under its positional letter, and letters ascend |
| QcmRows.EmitOptions | qcm_web_app.py:115-117 | the option loop emits exactly the non-empty options under `lets[i]` |
| QcmRows.BlockOf | qcm_web_app.py:114-117 | the printed question of a row: its number, its stripped text and its emitted options (definition; BlocksShape and EmittedKeepsPositions state its properties) |
| QcmRows.CorrectionOf | qcm_web_app.py:119 | the correction row of a row: its number, the answer cell only stripped, and the explanation (definition; CorrectionNormalisesToParsed relates it to parse_csv) |
| QcmRows.RenderQuestion | qcm_web_app.py:106-119 | one generator step builds the question block (number, stripped text, lettered non-empty options) and the correction row (number, answer cell only stripped, explanation) |
| QcmRows.BlocksAfter | qcm_web_app.py:103-117 | after `n` rows the loop holds one block per kept row |
| QcmRows.CorrectionsAfter | qcm_web_app.py:103-119 | after `n` rows the loop holds one correction row per kept row |
| QcmRows.BlocksAfterAt | qcm_web_app.py:103-117 | the k-th block the loop holds is that of the k-th kept row, numbered k + 1 |
| QcmRows.CorrectionsAfterAt | qcm_web_app.py:103-119 | the k-th correction row the loop holds is that of the k-th kept row, numbered k + 1 |
| QcmRows.BlocksAfterSpec | qcm_web_app.py:103-117 | after `n` rows the loop holds the blocks of the rows kept so far, numbered consecutively from 1 |
| QcmRows.CorrectionsAfterSpec | qcm_web_app.py:103-119 | after `n` rows the loop holds the correction rows of the rows kept so far, numbered consecutively from 1 |
| QcmRows.BlocksShape | qcm_web_app.py:103-116 | the k-th printed question has number k + 1 and the k-th accepted row's text, and shows an option under its letter exactly when that option is non-empty |
| QcmWebApp.ParseAfter | qcm_web_app.py:151-163 | after `n` rows parse_csv's loop holds one record per kept row |
| QcmWebApp.ParseRecord | qcm_web_app.py:154-162 | the record of one question row: stripped text, options and explanation from its layout and the normalised answer (definition; ParsedRecordsShape states its properties) |
| QcmWebApp.ParseAfterAt | qcm_web_app.py:151-163 | the k-th record the loop holds is the parse of the k-th kept row |
| QcmWebApp.ParseAfterSpec | qcm_web_app.py:151-163 | after `n` rows the loop holds the records of the rows kept so far, in order |
| QcmWebApp.ParseRow | qcm_web_app.py:154-163 | one parse step builds the record: stripped text, options and explanation, and the normalised answer, all from the row's layout |
| QcmWebApp.ParseCsv | qcm_web_app.py:149-164 | `parse_csv` returns the records of the accepted rows, one each, in input order |
| QcmWebApp.ParsedRecordsShape | qcm_web_app.py:150-163 | one record per accepted row in order, each with 4 or 6 options and an answer with no space, comma or lower-case letter |
| QcmWebApp.ParseAllConcat | qcm_web_app.py:152-163 | the records of two stretches of question rows are those of the first followed by those of the second |
| QcmWebApp.ParseKeepsOrder | qcm_web_app.py:152-163 | parsing keeps input order across any split of the rows |
| QcmWebApp.PerformStats | qcm_web_app.py:134-147 | `perform_stats` returns the statistics of the accepted rows and the `Counter` of their collected letters |
| QcmWebApp.CountMulti | qcm_web_app.py:141 | no more multi-answer records than records |
| QcmWebApp.AnswerStatsOfRecords | qcm_web_app.py:140-144 | counting a list of answers agrees with counting the records that carry them |
| QcmWebApp.StatsOfParsed | qcm_web_app.py:140-144 | `multi` counts the parsed records whose answer is longer than one character, and the collected letters are the A-F letters of the parsed answers |
| QcmWebApp.StatsAgreeWithParse | qcm_web_app.py:136-145 | `total` is the number of parsed records and equals `single + multi`; `multi` counts parsed answers longer than one character, so an empty answer counts as single; the letters are the parsed answers' A-F letters, and their per-letter counts add up to their number |
| QcmWebApp.GenerateAnswerSheet | qcm_web_app.py:38-51 | the sheet has `num_questions` rows numbered 1..n, each with 6 boxes |
| QcmWebApp.GenerateHtmlContent | qcm_web_app.py:100-121 | the exam page holds the blocks and correction rows of the accepted rows, numbered consecutively, and an answer sheet with one row per question under the same number |
| QcmWebApp.CorrectionNormalisesToParsed | qcm_web_app.py:109-119 | normalising the (only stripped) answer printed in the correction table gives exactly the answer parse_csv grades against |
| QcmExam.OfferedCount | qcm_web_app.py:349 | a question is offered as many letters as it has options, but at most six |
| QcmExam.Label | qcm_web_app.py:360 | a radio label starts with its letter, which is what `choice[0]` reads |
| QcmExam.TickedLetters | qcm_web_app.py:355-357 | the ticked letters are no more than the offered letters |
| QcmExam.TickedLettersSpec | qcm_web_app.py:355-357 | the checkbox loop collects exactly the offered letters that are ticked, in ascending order |
| QcmExam.InsertKeepsLetters | qcm_web_app.py:364 | inserting a letter into a sorted string adds exactly that letter |
| QcmExam.InsertSorted | qcm_web_app.py:364 | inserting into a sorted string keeps it sorted |
| QcmExam.SortLettersSorts | qcm_web_app.py:364 | `sorted()` returns the same letters in non-decreasing order |
| QcmExam.SortAscendingUnchanged | qcm_web_app.py:364 | sorting letters that already ascend leaves them unchanged |
| QcmExam.SortLetters | qcm_web_app.py:364 | `sorted()` on letters keeps their number; SortLettersSorts states that it sorts and permutes |
| QcmExam.Selected | qcm_web_app.py:352-362 | the letters a card selects: at most one per offered letter, and at most one in all on a single-answer card |
| QcmExam.Captured | qcm_web_app.py:364 | the stored answer is the selected letters in non-decreasing order, none lost and none added |
| QcmExam.CaptureAnswer | qcm_web_app.py:349-364 | one card stores its selected letters, sorted and joined |
| QcmExam.OfferedAscending | qcm_web_app.py:349 | the offered letters are the first letters of A-F, in ascending order |
| QcmExam.CapturedShape | qcm_web_app.py:349-364 | a stored answer ascends and holds only offered letters; a single-answer card stores at most one letter, and none exactly when no label is chosen; a multi-answer card stores exactly the ticked offered letters |
| QcmExam.CaptureAll | qcm_web_app.py:343-364 | the exam view stores every card's captured answer under its index and leaves other entries as they were |
| QcmExam.StoredAnswer | qcm_web_app.py:373 | `user_answers.get(idx, "")`: the stored answer, or the empty string for an index never stored (definition) |
| QcmExam.IsCorrect | qcm_web_app.py:373 | a question is correct when its stored answer equals its normalised answer exactly (definition; MatchesCountsCorrect and EntryMarked use it) |
| QcmExam.Matches | qcm_web_app.py:371-374 | at most `n` of the first `n` questions match |
| QcmExam.Score | qcm_web_app.py:371-374 | the score counts the exact matches, so `0 <= score <= len(questions)` |
| QcmExam.MatchesCountsCorrect | qcm_web_app.py:371-374 | the score is the number of indices whose stored answer equals the normalised answer exactly |
| QcmExam.PerfectScore | qcm_web_app.py:371-374 | full marks exactly when every question is answered exactly |
| QcmExam.ZeroScore | qcm_web_app.py:371-374 | no mark exactly when no question is answered exactly |
| QcmExam.EmptyAnswerScoresUnanswered | qcm_web_app.py:373 | a question with an empty answer is a single-answer card, and leaving it unanswered scores it |
| QcmExam.AscendingSplit | qcm_web_app.py:364 | an ascending string is its least letter followed by an ascending rest |
| QcmExam.AscendingUnique | qcm_web_app.py:364 | two ascending strings with the same letters are equal |
| QcmExam.OnlyReachableAnswersScore | qcm_web_app.py:364-373 | a question can be scored only when its answer's letters ascend and are all offered (`C,A` normalised to `CA` never scores) |
| QcmExam.ReachableAnswersScore | qcm_web_app.py:349-373 | every answer whose letters ascend and are offered is scored by some valid selection |
| QcmExam.ParsedQuestionsFitLetters | qcm_web_app.py:174-179 | every parsed question has at most six options, so each option has a report letter |
| QcmExam.Entries | qcm_web_app.py:169-205 | the report has one entry per question |
| QcmExam.EntriesAt | qcm_web_app.py:169-205 | the k-th report entry is that of question k with its stored answer |
| QcmExam.MarkedCount | qcm_web_app.py:171 | no more entries are marked correct than there are entries |
| QcmExam.MarksMatchScore | qcm_web_app.py:169-171 | the report marks as correct exactly as many entries as the score counts |
| QcmExam.EntryMarked | qcm_web_app.py:171 | entry k is marked correct exactly when question k is answered exactly |
| QcmExam.BoxFor | qcm_web_app.py:181-185 | an option's box is "[ X ]" exactly when its letter is in the answer, "[ x ]" exactly when it is not but was selected, and blank exactly when neither |
| QcmExam.LinesOf | qcm_web_app.py:178-193 | one option line per option of the question, each with its letter in A-F and its text (definition; BoxesOfEntry states its boxes) |
| QcmExam.EntryOf | qcm_web_app.py:169-205 | one report entry: number idx + 1, text, the ✅ test `user == ans`, the option lines, the selection or "NULL", and the explanation (definition; BoxesOfEntry, EntryMarked and MarksMatchScore state its properties) |
| QcmExam.OptionBoxes | qcm_web_app.py:178-193 | the option loop draws one line per option with its letter, text and box |
| QcmExam.GenerateResultReport | qcm_web_app.py:166-215 | for at least one question, the report holds the score, the question count and one entry per question, and marks as correct as many entries as the score counts |
| QcmExam.BoxesOfEntry | qcm_web_app.py:180-185 | each option gets exactly one box: "[ X ]" exactly when its letter is in the answer; "[ x ]" exactly when it is not but was selected; blank otherwise; an exact answer never shows "[ x ]" |
| QcmExam.MarkAgreesWithBoxes | qcm_web_app.py:171-185 | for a captured selection and an answerable question, the entry is marked correct exactly when no option shows "[ x ]" and every "[ X ]" letter was selected |
| Csv2Html.CalculateStats | csv_2_html.py:60-73 | `calculate_stats` returns the same statistics as `perform_stats`: the accepted rows counted, the answer from cell 7 or 5 normalised in its own order, split into single and multi, and the `Counter` of the A-F letters |
| Csv2Html.GenerateHtml | csv_2_html.py:107-124 | the classic page holds the blocks and answer rows of the accepted rows: numbers start at 1 and increase by one per accepted row, options keep their positional letter, and the answer is only stripped |
| Csv2Html.AnswerRowsMatchTotal | csv_2_html.py:108-124 | the answer table has one row per question counted by `calculate_stats`, and as many as parse_csv has records |
| Csv2Html.SkippedRowChangesNothing | csv_2_html.py:110-124 | a row with fewer than 7 cells advances no number: removing it leaves every block and answer row as it was |

## Left out

- The user interfaces are not modelled. This covers the Streamlit widgets,
  reruns, the sidebar, the Tkinter window and `QCMGeneratorApp.__init__`,
  `setup_ui` and `generate`. A question card's widget state is a
  `Selection` parameter, and `st.session_state.user_answers` is a map that
  `CaptureAll` returns updated.
- PDF rendering (pdfkit), file writes, download buttons, file dialogs,
  `webbrowser` and the QR-code URL are not modelled: they are foreign calls
  or I/O.
- `csv.reader` is not modelled: its quoting and escaping rules belong to a
  library. The model starts from rows already split on `|`.
- Floating-point code is not modelled. This covers the distribution
  percentages, the score percentages and the timer with its time-out
  submission. The model keeps the counts and the `Counter` these are
  computed from.
- QcmExam.GenerateResultReport: it requires at least one question. The
  score line (qcm_web_app.py:215) divides by `len(questions)`, so
  `generate_result_report` raises ZeroDivisionError for an empty list. The
  final score display (qcm_web_app.py:380) raises for the same reason
  before the report is reached. Its percentage is not modelled, and neither
  is that crash.
- The literal HTML and CSS text is not modelled: documents are kept as
  their structure (numbers, texts, letters, rows, boxes). The text colours
  of report lines follow the same tests as the boxes and are not modelled
  separately.
- The detailed correction shown after submission (qcm_web_app.py:390-397)
  is not modelled. It reads `user_answers.get(idx, "NULL")`, not the `""`
  default that `StoredAnswer` models. It agrees with `IsCorrect` only
  because the exam view stores an answer for every index before scoring
  (`CaptureAll`).
- `str.strip()` and `str.upper()` are modelled on ASCII only: whitespace is
  9-13, 28-31 and the space, and case is a-z/A-Z. Unicode whitespace and case
  mappings are not modelled.
- `sorted()` is modelled as an insertion sort on characters, `SortLetters`.
  Only its result is modelled, not CPython's algorithm.
- QcmRows.NormalizeIdempotent: this is weaker than "applying the
  normalisation again leaves it unchanged", which is false in general. A
  comma can hide a tab or other non-space whitespace from the first strip
  (`NormalizeNotIdempotent`). The lemma therefore requires that the
  normalised answer not start or end with such whitespace. The source
  never applies the normalisation twice, so this is not a defect.
- QcmExam.GenerateResultReport and QcmExam.Entries: both require at most
  six options per question. Beyond six, `inv_mapping.get(i)` would give
  `None`, which the model does not represent. Every question `parse_csv`
  produces meets this (`ParsedQuestionsFitLetters`).
- QcmExam.CaptureAnswer: it requires that a radio choice be one of the
  card's labels. This is all the widget can return.
