# Boston cannabis dashboard: the logic behind the tables and the quiz

This is a Dafny model of the computing core of a Streamlit dashboard about cannabis dispensaries in Boston. The dashboard reads the city's cannabis registry and shows:

- the active licenses, sorted by business name;
- a dispensary lookup by license type and zip code;
- the number of registry rows with no missing cell whose equity flag is exactly "Y" (the screen calls them businesses in the Social Equity Program);
- a five-question quiz that reports how many questions were answered correctly and a score out of 100.

The registry is modelled as a sequence of immutable `Registry.Record` values. All cells are text. Pandas row selections become the generic, order-keeping `Seqs.Filter`. `sort_values` becomes `Registry.SortByName`, which uses Python's code-point order on strings (`Text.LexLeq`). Python's `str.upper` and `str.title` are `Text.Upper` and `Text.Title`, which cover ASCII letters only.

Modules:

- `Seqs`: the filter and its laws.
- `Text`: string order and case mapping.
- `Registry`: the record and sorting by name.
- `Lookup`: `find_a_dispensary`.
- `Listings`: the active listing and the equity split.
- `Quiz`: grading.

Four behaviours of the code differ from what the program's own text suggests; the model follows the code.

- **The lookup runs over active rows only.** The heading above the lookup (line 175) invites the user to "look at the dispensaries in your area". But the lookup tab passes the active-license table (`df3`, lines 99 and 183) to `find_a_dispensary`, not the full registry. An expired or inactive license is never found, even when its type and zip code match. `Listings.LookupOnActiveRows` states this.
- **The lookup's default license type is never used.** The signature at line 29 gives `storeType` the default `"Retail"`, but its one caller (line 183) always passes the select box's choice. The model therefore takes the license type as an ordinary argument.
- **The state answer needs the doubled "ss".** The question at line 253 asks "What state is this data for?", and the comment at line 284 says the test is meant to accept variants of the right answer. Yet the name is accepted only when it title-cases to "Massachussetts" (line 284). The correctly spelled "Massachusetts" earns no point; `Quiz.StandardSpellingRejected` states this.
- **The equity count counts license rows, not businesses.** Line 214 reports `yesEQ` as the number of businesses in the program, but `yesEQ = len(equityQuery)` (lines 211-213) counts rows of the cleaned table whose flag is exactly "Y". Each row is one license, so a business holding several "Y" licenses is counted several times. `df_cleaned = df_full.dropna()` (line 60) also drops every row with a blank cell in any column, for example a missing coordinate or first name, so such a row is never counted. `Listings.EquitySplit` states the row count.

## Model

| member | source | states |
|---|---|---|
| Lookup.FindADispensary | FinalProject.py:29-38 | Only rows whose license type and zip code both equal the inputs exactly are returned. Every such input row is returned, as often as it occurs, in input order (the result is a subsequence of the input). `existingRecords` holds iff some input row matches, iff the result is non-empty. Zero matches is not an error. |
| Lookup.LookupIdempotent | FinalProject.py:31 | Querying the result again with the same zip code and license type returns the same rows and flag. |
| Lookup.LookupExampleFound | FinalProject.py:29-38 | On a three-row table (Retail/02118, Retail/02119, Medical/02118), Retail in 02118 finds exactly the first row and reports records found. |
| Lookup.LookupExampleMissing | FinalProject.py:29-38 | On the same table, a zip code with no Retail row ("02120"), or the zip code with its leading zero lost ("2118"), finds nothing and reports no records. |
| Listings.ActiveRows | FinalProject.py:97-99 | `df3` holds only "Active" rows. Every active row of the registry appears in it with its multiplicity, in file order. |
| Listings.ActiveListing | FinalProject.py:97-100 | The displayed listing holds only active rows. It contains every active row, is sorted by business name, and is a permutation of `df3`. |
| Listings.ActiveListingNamesDetermined | FinalProject.py:100 | The tie order of `sort_values` is unspecified, but any sorted permutation of `df3` shows the same column of business names as the model's listing. |
| Listings.LookupOnActiveRows | FinalProject.py:183 | What the lookup tab shows is exactly the registry rows that are active and match the query, in file order. Every row it shows is active. |
| Listings.FilterCountsFlag | FinalProject.py:211-217 | The number of rows the equity query keeps for a flag equals the number of rows carrying exactly that flag. |
| Listings.EquitySplit | FinalProject.py:209-217 | `sortedEquity` is exactly the "Y" rows of the cleaned table, sorted by name. `yesEQ` and `noEQ` count rows flagged exactly "Y" and exactly "N". `yesEQ + noEQ <= len(df_cleaned)`, with equality iff every flag is exactly "Y" or "N"; any other flag lands in neither count. |
| Registry.InsertByName | FinalProject.py:100 | Inserting a row into a table sorted by name keeps it sorted and adds exactly that row. |
| Registry.SortByName | FinalProject.py:100 | The result is sorted by business name in Python's string order and is a permutation of the input. |
| Registry.SortedNamesUnique | FinalProject.py:100 | Two sorted permutations of the same rows have equal length and agree on the business name at every position. |
| Quiz.Grade | FinalProject.py:265-310 | `count` is the number of questions answered correctly. `finalScore` is ten times the points earned, a multiple of ten in 0..100. `count <= 5` and ten times `count` never exceeds `finalScore`. |
| Quiz.Tally | FinalProject.py:272-299 | The `score` list holds only ones. There is one entry per correct step present in the selection, plus one per other question answered right. `count` adds one for an exact, in-order steps answer and one per other right answer. |
| Quiz.StepScore | FinalProject.py:274-276 | The loop over the correct steps appends a 1 for each step that is found in the selection, and nothing else. |
| Quiz.TotalScore | FinalProject.py:303-308 | `totalScore` is the sum of ten times each entry of `score`. |
| Quiz.GradeState | FinalProject.py:281-287 | The `if`/`elif` awards the state point exactly to the answers that equal "ma" or "massachussetts" up to letter case, and to no other answer. |
| Quiz.AddPoint | FinalProject.py:282-298 | `score.append(1)` lengthens a list of ones by exactly one entry, and it stays a list of ones. |
| Quiz.StateTitleFromWord | FinalProject.py:284 | Upper-casing the first letter of "massachussetts" gives exactly the spelling line 284 compares with. |
| Quiz.TitleStateName | FinalProject.py:284 | "massachussetts" title-cases to exactly the spelling line 284 compares with. |
| Quiz.StateAnswerIff | FinalProject.py:281-287 | A state answer is accepted iff it is "ma" or "massachussetts" up to letter case. The two tests never both pass, so one answer never earns two points. |
| Quiz.StandardSpellingRejected | FinalProject.py:281-284 | "Massachusetts" and "massachusetts" earn no state point. |
| Quiz.StepPointsBound | FinalProject.py:274-276 | The loop's hits equal the number of distinct correct steps selected. This is at most six, and exactly six iff every correct step is selected. |
| Quiz.StepPointsIgnoreOrderAndExtras | FinalProject.py:274-276 | Two selections that contain the same correct steps earn the same step points, whatever their order and whatever wrong steps come with them. |
| Quiz.StepsQuestionEarnsPoints | FinalProject.py:274-279 | An exactly correct steps answer earns all six step points, and no selection earns more than six. |
| Quiz.ScoreBounds | FinalProject.py:272-308 | At most ten points and at most five questions correct; questions correct never exceed points. |
| Quiz.SumOfOnes | FinalProject.py:303-306 | A list of ones sums to its length. |
| Quiz.ReorderedStepsExample | FinalProject.py:274-279 | The correct steps with the last moved first earn six step points, but the steps question does not count as correct. |
| Quiz.SelectAllOptions | FinalProject.py:240-279 | Ticking all eight offered options, wrong ones included, earns all six step points, but the steps question does not count as correct. |
| Quiz.PerfectAnswers | FinalProject.py:265-308 | The exact steps, "MA" or "massachussetts", "False", 33 and 21 give five questions correct and ten points (a score of 100). |
| Seqs.FilterMultiset | FinalProject.py:31 | A row selection keeps every selected element as often as it occurs and drops every other element. |
| Seqs.FilterIsSubsequence | FinalProject.py:31 | A row selection keeps input order. |
| Seqs.FilterEmptyIff | FinalProject.py:33-36 | A selection is empty iff no element is selected. |
| Seqs.FilterThenFilter | FinalProject.py:183 | Selecting by one mask and then by another is selecting by their conjunction. |
| Seqs.FilterIdempotent | FinalProject.py:31 | Selecting twice with the same mask is selecting once. |
| Seqs.FilterPartition | FinalProject.py:211-217 | Two disjoint selections together keep at most all elements, and exactly all iff every element is selected by one of them. |
| Seqs.CountPresentIsHits | FinalProject.py:274-276 | Walking a list of distinct keys and keeping those found in a selection keeps one entry per distinct key present, at most the number of keys. |
| Text.LexLeqTrans | FinalProject.py:100 | Python's string order is transitive. |
| Text.LexLeqTotal | FinalProject.py:100 | Python's string order is total. |
| Text.LexLeqAntisymmetric | FinalProject.py:100 | Two strings ordered both ways are equal. |
| Text.UpperMatchesIff | FinalProject.py:281 | Two strings upper-case to the same text iff they are equal up to letter case. |
| Seqs.Filter | FinalProject.py:31 | A boolean-mask row selection, as used at lines 31, 99, 211 and 217. The result is never longer than the input, and every row it keeps satisfies the mask. |
| Text.LexLeq | FinalProject.py:100 | Python's `str` comparison as used by `sort_values`. A string is ordered before every string it is a prefix of. |
| Text.Upper | FinalProject.py:281 | `str.upper` keeps the length, leaves no lower-case letter, and changes nothing but the case of letters. |
| Text.Title | FinalProject.py:284 | `str.title` keeps the length and changes nothing but the case of letters. A letter that starts the string or follows an uncased character is not lower-case; a letter following a cased one is not upper-case. |
| Text.TitleOfLowerWord | FinalProject.py:284 | A word of lower-case letters title-cases to itself with only its first letter upper-cased. |
| Text.TitleMatchesIff | FinalProject.py:284 | When `w` is all letters, `s` title-cases to `w.title()` iff `s` equals `w` up to letter case. |

## Left out

- Loading the CSV, its dtype map and `pd.set_option` (lines 9-16) are file I/O. The renamed, cleaned table is a parameter instead.
- `dropna` (line 60) is taken as already done: the equity split receives the cleaned table as its input.
- Missing (NaN) cells are not modelled as such; every cell is a string. In the source, a NaN status, flag or license type compares unequal to every string, which a string never does here. A NaN zip code is different: `astype(str)` at line 30 turns it into the text "nan" before the comparison at line 31, so it is matched by a user who types `nan`. The model represents that cell faithfully as the string "nan".
- The longitude and latitude columns, the folium map and its mean-coordinate centre (lines 104-121) are floating point and a foreign library, so they are left out of `Registry.Record`.
- `create_bar_plot`, `value_counts` and the pie chart (lines 19-26, 124, 173, 222-227) are plotting only.
- Column projections (`df[columns]`, lines 97-98, 209-210) are not modelled. They drop columns without changing which rows are kept or their order.
- The in-place `astype(str)` of the zip code (lines 30, 181) is covered by modelling the zip code as a string from the start.
- All Streamlit widgets, tabs, sidebar survey, HTML, images, video, camera and messages are left out, including `st.write("Correct!")` (line 285). The widget values become the fields of `Quiz.Answers`.
- The player-history append and re-read (lines 312-324) is file I/O.
- Quiz.Answers: the age from `st.number_input` is a float in the source (line 261). The model uses an integer, so an answer such as 21.5 has no counterpart; the comparison with 21 is otherwise the same.
- Text.Upper: Python's full Unicode case mapping (for example "ß" upper-casing to "SS") is not modelled; only the ASCII letters change case.
- Text.Title: Python's full Unicode notion of cased characters is not modelled; only ASCII letters count as cased.
- Registry.SortByName: pandas' default quicksort is not guaranteed to keep rows with equal names in file order, and the model does not fix a tie order either. Its contract promises only sortedness and permutation, and `Registry.SortedNamesUnique` shows that the name column is still determined.
