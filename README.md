# UNSW timetable scraper: extraction core in Dafny

This project models the part of `unsw_scrapper.py` that turns an already-parsed
timetable page into records, and the keyed store those records go into:

- `parse_term`: decodes one term-summary table. Headings come from row 4 and
  data rows from row 6 on. Each cell is paired with the heading of its column.
  Cells that are empty or equal to their heading are skipped. The
  `Enrols/Capacity` column is split into two counts. Only rows with at least
  six fields are kept.
- The three readings `get_course` takes of a course page:
  - the number of terms-offered cells that name a term;
  - the faculty / school / campus / career label-value pairs;
  - the tables that follow each `SUMMARY OF ` marker table.
- The `range(num_terms)` loop that decodes the located tables and writes class
  rows. Its broad `except` (lines 183-185) is modelled as the term block
  returning `false`: the block ends there and keeps whatever was already
  written.
- The three upserts (`subject`, `course`, `classes`). Each is a map from the
  table's natural key to a row. Each follows the column list of its
  `ON CONFLICT ... DO UPDATE SET`.
- The string helpers:
  - the anchor filter of `get_links`;
  - the course, subject and campus codes cut from a file name;
  - `main`'s year-range assertion.

Modules, leaves first:

- `Wrappers`: `Option`, `Result`, and the Python exceptions the core can raise.
- `Text`: the Python string operations the core uses, written out: `in`,
  `strip`, `replace`, one-character `split`, the digit filter with `int`,
  slicing with negative bounds, `os.path.basename` and a two-argument POSIX
  `os.path.join`.
- `RowDecoder`: `parse_term`.
- `CoursePage`: the terms counter, the label/value machine and the summary
  locator.
- `Links`: `get_links`, the file-name codes and the year check.
- `RecordStore`: the three tables, their upserts, and the write paths of
  `get_subject` and `get_course`. These live in a `Store` class whose methods
  update its three maps in place.

Each loop of the source is a method, proved against a recursive function that
states what the loop computes. The properties are then proved about those
functions.

Three behaviours of the code that are easy to misread, and that the model keeps:

- A non-`Enrols/Capacity` cell is stored as its raw `td.text`, without trimming
  (line 49).
- On a revisit, the course upsert leaves `campus` and `subject_code` as they
  were. Its `DO UPDATE SET` list (lines 125-129) names only faculty, school,
  career and num_terms.
- The stored `num_terms` is the number of terms-offered cells that name a term
  (lines 93-97). It is not the number of summary tables located or decoded.

## Model

| member | source | states |
|---|---|---|
| Text.ContainsIffOccurs | unsw_scrapper.py:59 | Python's `sub in s` holds exactly when `sub` occurs at some index of `s` |
| Text.ContainsAnyIffOccurs | unsw_scrapper.py:96 | `any(m in s for m in ms)` holds exactly when some marker occurs at some index of `s` |
| Text.TrimStartIsSuffix | unsw_scrapper.py:33 | `lstrip` leaves the suffix after the maximal run of leading whitespace |
| Text.TrimEndIsPrefix | unsw_scrapper.py:33 | `rstrip` leaves the prefix before the maximal run of trailing whitespace |
| Text.StripIsTrimmedInfix | unsw_scrapper.py:33 | `strip` gives the infix between the whitespace at both ends, and it neither starts nor ends with whitespace |
| Text.StripIdempotent | unsw_scrapper.py:111 | stripping twice is stripping once |
| Text.Strip | unsw_scrapper.py:111-114 | `strip` is never longer than its input, and its result neither starts nor ends with whitespace |
| Text.ReplaceNewlines | unsw_scrapper.py:33 | `replace('\n', ' ')` keeps the length |
| Text.ReplaceNewlinesPointwise | unsw_scrapper.py:33 | each line break becomes a space and every other character stays in place |
| Text.Split | unsw_scrapper.py:43-44 | `split('/')` gives at least one piece, and no piece contains the separator |
| Text.JoinSplit | unsw_scrapper.py:44 | joining the pieces of a split with the separator gives back the string |
| Text.SplitJoin | unsw_scrapper.py:44 | splitting a join of separator-free pieces gives back the pieces |
| Text.SplitNoSeparator | unsw_scrapper.py:44 | a separator-free string splits into itself alone |
| Text.SplitAtFirst | unsw_scrapper.py:44 | the first separator ends the first piece |
| Text.SplitHasSecondPiece | unsw_scrapper.py:44-47 | there is a second piece (`row_text[1]`) exactly when the text contains '/' |
| Text.DigitsOnly | unsw_scrapper.py:46-47 | `re.sub('[^0-9]', '', s)` gives only digits, is no longer than `s`, keeps an all-digit string, and empties a digit-free one |
| Text.DigitsOnlyAppend | unsw_scrapper.py:46-47 | the digit filter distributes over concatenation and keeps a single character exactly when it is a digit, which fixes its value on every string |
| Text.ParseDecimal | unsw_scrapper.py:46-47 | `int` of k digits is below 10^k |
| Text.Decimal | unsw_scrapper.py:46-47 | a rendered count is a non-empty string of digits |
| Text.ParseDecimalOfDecimal | unsw_scrapper.py:46-47 | `int(str(n)) == n` |
| Text.ParseDecimalAppend | unsw_scrapper.py:46-47 | the digits of `a` then `b` spell `a`'s number times 10^|b| plus `b`'s number |
| Text.ParseDecimalLeadingZero | unsw_scrapper.py:46-47 | a leading zero does not change the value: `int("05") == 5` |
| Text.ParseCount | unsw_scrapper.py:46-47 | `int(re.sub(...) or '0')` is 0 for digit-free text and the decimal value of an all-digit one |
| Text.ParseCountProperties | unsw_scrapper.py:46-47 | filtering first does not change the count, and `int(str(n)) == n` through the filter |
| Text.ParseCountSkipsNonDigit | unsw_scrapper.py:46-47 | a non-digit anywhere in the text leaves the count unchanged |
| Text.ParseCountOfPaddedDecimal | unsw_scrapper.py:46-47 | a count written between two runs of non-digit text reads back as that count |
| Text.SliceBound | unsw_scrapper.py:80 | Python's slice-bound normalisation: unchanged in range, counted from the end when negative, clamped to the length above it and to 0 below minus the length |
| Text.Slice | unsw_scrapper.py:80 | a slice is never longer than the string |
| Text.Basename | unsw_scrapper.py:79 | `basename` is never longer than the path |
| Text.BasenameIsLastSegment | unsw_scrapper.py:79 | `basename` is the '/'-free suffix after the last '/' |
| Text.BasenameAfterSlash | unsw_scrapper.py:79 | whatever precedes a '/' does not change the base name |
| Text.PathJoin | unsw_scrapper.py:62 | `os.path.join(prefix, href)` ends with `href` and adds at most one separator |
| Text.BasenameOfJoin | unsw_scrapper.py:62 | a joined link has the base name of its `href` |
| RowDecoder.DecodeRowCells | unsw_scrapper.py:38-50 | the per-row loop builds the dict that pairing cells with headings, with zip truncation, gives, or the `IndexError` of a composite cell without '/' |
| RowDecoder.ReadHeadings | unsw_scrapper.py:31-33 | each heading is its row-4 cell with line breaks turned into spaces, then stripped |
| RowDecoder.DecodeCellEffect | unsw_scrapper.py:40-49 | one cell fails exactly when it is a composite cell without '/', and otherwise no field is lost and only its own heading or the two composite keys change |
| RowDecoder.DecodeDataRows | unsw_scrapper.py:35-54 | the data loop yields the rows kept from all data rows in order, or the first row's failure |
| RowDecoder.ParseTerm | unsw_scrapper.py:26-54 | `parse_term`: an `IndexError` when row 4 is missing; otherwise the decoded data rows from row 6 on, each with at least six fields |
| RowDecoder.DecodeRowsAdvance | unsw_scrapper.py:37-52 | one more data row either fails the whole table or is appended exactly when it has six fields |
| RowDecoder.DecodeRowsKeepsFull | unsw_scrapper.py:51-52 | every kept row has at least six fields |
| RowDecoder.DecodeRowsErrSticky | unsw_scrapper.py:37-52 | an exception in one row is the result of the whole table |
| RowDecoder.DecodePairsErrSticky | unsw_scrapper.py:39-47 | once a prefix of the row has raised, every longer prefix gives that same exception |
| RowDecoder.DecodePairsFailsIff | unsw_scrapper.py:39-47 | a row's first n cells raise exactly when one of them is a composite cell without '/', and the exception is the `IndexError` of `row_text[1]` |
| RowDecoder.DecodeRowFailsIff | unsw_scrapper.py:39-47 | the same for a whole data row zipped with the headings |
| RowDecoder.DecodeRowsFailsIff | unsw_scrapper.py:37-52 | the data loop raises exactly when one of its rows does |
| RowDecoder.ParseTermFailsIff | unsw_scrapper.py:26-54 | `parse_term` raises exactly when row 4 is missing or some data row has a composite cell without '/' |
| RowDecoder.EnrolsCapacitySplit | unsw_scrapper.py:42-47 | the text before the first '/' gives `Enrols`, the text up to any next '/' gives `Capacity`, each a digit-filtered count |
| RowDecoder.EnrolsCapacityNeedsSlash | unsw_scrapper.py:44-47 | a composite cell fails exactly when it has no '/' |
| RowDecoder.EnrolsCapacityRoundTrip | unsw_scrapper.py:42-47 | a composite cell "e/c" written from two counts decodes to `Enrols = e` and `Capacity = c` |
| RowDecoder.EnrolsCapacityNotAvailable | unsw_scrapper.py:46-47 | "N/A" decodes to 0 enrolled of 0 |
| RowDecoder.DecodedFieldsComeFromCells | unsw_scrapper.py:39-49 | every field of a row is a composite key or a heading whose cell's raw, untrimmed, non-empty text differs from the heading |
| RowDecoder.DecodePairsKeepsTextCell | unsw_scrapper.py:39-49 | a kept text cell's heading is a field of the row, holding the cell's raw text unless a later cell under the same heading is kept |
| RowDecoder.DecodePairsKeepsCompositeCell | unsw_scrapper.py:38-48 | a kept `Enrols/Capacity` cell contains '/' and gives the row `Enrols` = the count of its first piece and `Capacity` = the count of its second, unless a later kept cell writes those keys |
| RowDecoder.DecodeRowKeepsCompositeCell | unsw_scrapper.py:38-48 | the same for a whole data row zipped with the headings |
| RowDecoder.DecodeRowsAppend | unsw_scrapper.py:37-52 | output keeps source row order: two blocks of rows decode to the two outputs, one after the other |
| RowDecoder.DecodeRowsPrefix | unsw_scrapper.py:37-52 | later rows do not change what earlier rows decode to |
| RowDecoder.RowThreshold | unsw_scrapper.py:51-52 | a row of five fields is dropped and one of six is kept |
| RowDecoder.ParseTermIgnoresPreamble | unsw_scrapper.py:32-37 | rows 0-3 and 5 never affect the result |
| CoursePage.CountTerms | unsw_scrapper.py:93-97 | the terms-offered loop counts the cells that name at least one of the seven markers |
| CoursePage.NamesTermIffOccurs | unsw_scrapper.py:96 | a cell names a term exactly when one of the seven markers occurs in its text |
| CoursePage.CountNamedAppend | unsw_scrapper.py:94-97 | the count over two blocks of cells is the sum of their counts |
| CoursePage.CountNamedBound | unsw_scrapper.py:94-97 | each cell adds at most one; the count equals the number of cells exactly when every cell names a term |
| CoursePage.TwoMarkersCountOnce | unsw_scrapper.py:96-97 | a cell naming two terms counts once |
| CoursePage.ExtractCourseInfo | unsw_scrapper.py:102-118 | the faculty loop leaves the pairs the label machine collects, or the exception a cell's missing or empty class list raises |
| CoursePage.StepEffect | unsw_scrapper.py:109-118 | one cell fails exactly when it has no first class name; otherwise no pair is lost, a `label` cell sets the pending label to its stripped text, a `data` cell clears it, and any other cell changes nothing |
| CoursePage.RunOkIffClassed | unsw_scrapper.py:108-110 | the label loop completes exactly when every cell has a first class name |
| CoursePage.RunAppend | unsw_scrapper.py:108-118 | the machine over two blocks of cells runs the second from where the first stopped |
| CoursePage.CollectedLabelsAllowed | unsw_scrapper.py:115-116 | only allowed labels are ever collected |
| CoursePage.CourseInfoKeys | unsw_scrapper.py:105-116 | the result's keys are among Faculty, School, Campus and Career |
| CoursePage.OrphanDataIgnored | unsw_scrapper.py:113 | a `data` cell with no pending label is ignored |
| CoursePage.LaterLabelWins | unsw_scrapper.py:110-112 | a later `label` cell overwrites the pending label |
| CoursePage.PairingClearsLabel | unsw_scrapper.py:113-118 | the pending label is cleared after every pairing, and a discarded pair leaves the collected pairs unchanged |
| CoursePage.LastPairWins | unsw_scrapper.py:110-117 | the last pair for an allowed label sets its value to the data's stripped text |
| CoursePage.RunKeepsPair | unsw_scrapper.py:108-118 | a collected pair survives later cells, and keeps its value unless a later `label` cell names its label |
| CoursePage.PairAtCollected | unsw_scrapper.py:108-118 | a label/data pair anywhere in the cells is collected with the data's stripped text, unless a later `label` cell names the same label |
| CoursePage.RunOfFourPairs | unsw_scrapper.py:105-118 | Faculty, School, Campus and Career pairs in turn are all collected, each with its data's stripped text |
| CoursePage.CourseInfoOfFourPairs | unsw_scrapper.py:105-118 | such a table yields exactly the four allowed labels with those values |
| CoursePage.LocateSummaries | unsw_scrapper.py:143-152 | the locator loop collects the table after each marker table, or the `IndexError` of a marker in the last table |
| CoursePage.MarkerIndicesSound | unsw_scrapper.py:145-149 | every listed index is in range and names a table with a `SUMMARY OF ` cell |
| CoursePage.MarkerIndicesAscending | unsw_scrapper.py:145 | the marker indices are in ascending document order |
| CoursePage.MarkerIndicesComplete | unsw_scrapper.py:145-149 | every marker table's index is listed |
| CoursePage.LocateFailsIffLastMarked | unsw_scrapper.py:149-150 | locating fails exactly when the last table is a marker table |
| CoursePage.LocatePairsPositionally | unsw_scrapper.py:145-152 | on success, the k-th located table is the one right after the k-th marker table |
| CoursePage.PairingExample | unsw_scrapper.py:145-152 | for [A, B, C, D, E] with markers in B and D, the located tables are [C, E] |
| Links.GetLinks | unsw_scrapper.py:56-65 | the links are the followed anchors' `href`s joined to the prefix, in document order |
| Links.FollowedIffOccurs | unsw_scrapper.py:59 | an anchor is followed exactly when it has an `href` in which `.html` occurs and `Search` does not |
| Links.FollowedLinksExact | unsw_scrapper.py:58-63 | a link is returned exactly when an anchor with an `href` containing `.html` and not `Search` yields it; there are never more links than anchors |
| Links.FollowedLinksAppend | unsw_scrapper.py:58-63 | the links of two runs of anchors are the first run's, then the second's |
| Links.CourseCodeOfPage | unsw_scrapper.py:79-80 | the page `<dir>/<code>.html` gives course code `code` |
| Links.CourseCode | unsw_scrapper.py:79-80 | the course code is the file name without its last five characters, and empty for a name shorter than five |
| Links.BasenameOfSlashFree | unsw_scrapper.py:79 | a name without '/' is its own base name |
| Links.CourseCodeOfJoin | unsw_scrapper.py:79-80 | a joined course link has the course code of its `href` |
| Links.SubjectAndCampusCodes | unsw_scrapper.py:189-191 | the subject code is the file name's first four characters, and the two codes together are its first eight |
| Links.SubjectCode | unsw_scrapper.py:189-190 | the subject code is the file name's prefix of length four, or the whole name when it is shorter |
| Links.CampusCode | unsw_scrapper.py:189-191 | the campus code is the file name's characters 4 to 8, cut at its end, and empty for a name of at most four |
| Links.SubjectPageExample | unsw_scrapper.py:189-191 | `COMPKENS.html` is subject `COMP` on campus `KENS` |
| Links.CheckYear | unsw_scrapper.py:209-217 | a year is accepted exactly when it lies in [2008, current year], and it is then returned unchanged |
| RecordStore.PutSubject | unsw_scrapper.py:196-203 | the subject upsert stores the row under its code, leaves every other row, and keeps rows under their keys |
| RecordStore.PutCourse | unsw_scrapper.py:120-135 | the course upsert adds only the row's key, leaves every other row, and keeps rows under their keys |
| RecordStore.PutClass | unsw_scrapper.py:163-182 | the class upsert adds only the row's key and leaves every other row |
| RecordStore.CourseUpsertRefreshes | unsw_scrapper.py:125-129 | on an existing key only faculty, school, career and num_terms change; subject and campus keep their old values |
| RecordStore.ClassUpsertStoresRow | unsw_scrapper.py:170-176 | on a table whose rows sit under their keys, the class upsert stores exactly the new row |
| RecordStore.UpsertsIdempotent | unsw_scrapper.py:120-203 | each upsert, applied twice with the same input, equals applying it once |
| RecordStore.ToOffering | unsw_scrapper.py:157-182 | a row yields a class row exactly when it has all six required keys, and a `KeyError` names a missing key; the class row carries the course code and year, the row's Activity, Period, Class, Status, Enrols and Capacity values, and its Day/Start Time or `''` |
| RecordStore.WriteRows | unsw_scrapper.py:157-182 | the rows of one term are all written exactly when every row has the six required keys |
| RecordStore.WriteRowsKeys | unsw_scrapper.py:157-182 | writing complete rows adds exactly their class keys |
| RecordStore.WriteRowsLeavesOthers | unsw_scrapper.py:157-182 | writing complete rows keeps every row and changes none whose key they do not have |
| RecordStore.WriteRowsLastWins | unsw_scrapper.py:157-182 | after writing complete rows, each row's class row is stored under its key unless a later row has the same class code |
| RecordStore.WriteRowsStopsAtIncomplete | unsw_scrapper.py:157-182 | at the first row lacking a required key the write stops with a failure: the rows before it stay written and no later row is written |
| RecordStore.TwoTermsOfTwoRows | unsw_scrapper.py:142-182 | two located summaries of two complete rows each, with four distinct class codes, give exactly four class rows, one per decoded row |
| RecordStore.ExtraSummaryWritesNothing | unsw_scrapper.py:142-182 | with three located summaries and a term count of two, the third is never decoded and the result is that of the first two alone |
| RecordStore.TermPhase | unsw_scrapper.py:142-182 | a locate failure writes nothing and reports failure, and every class row added belongs to the visited course and year |
| RecordStore.CourseRow | unsw_scrapper.py:76-133 | the course row exists exactly when the label loop completes with all four labels; otherwise the `KeyError` names a missing label; the row holds the file-name course code, the year, the subject code, the four label values and the count of term-naming cells |
| RecordStore.CourseRowOfFourPairs | unsw_scrapper.py:105-133 | a course-information table holding the four pairs in turn gives the course row with those four values |
| RecordStore.ParsedTerms | unsw_scrapper.py:154-155 | one decoding per located table |
| RecordStore.ParsedTermsAll | unsw_scrapper.py:154-155 | the i-th decoding is `parse_term` of the i-th located table |
| RecordStore.WriteTermsAdvance | unsw_scrapper.py:154-182 | one more pass of the term loop either continues it or is where it ends |
| RecordStore.WriteTerms | unsw_scrapper.py:154-155 | the term loop completes only when there were at least `num_terms` decoded summaries; a shortfall is the `IndexError` of `term_summary_tables[i]` |
| RecordStore.WriteTermsPrefix | unsw_scrapper.py:154-155 | `range(num_terms)` reads only the first `num_terms` decoded summaries: the loop over all of them equals the loop over that prefix |
| RecordStore.Store.constructor | unsw_scrapper.py:227-230 | an empty schema: three empty, keyed tables |
| RecordStore.Store.UpsertSubject | unsw_scrapper.py:196-203 | the subject table becomes the upserted one; the others are untouched |
| RecordStore.Store.UpsertCourse | unsw_scrapper.py:120-135 | the course table becomes the upserted one; the others are untouched |
| RecordStore.Store.UpsertClass | unsw_scrapper.py:163-182 | the class table becomes the upserted one; the others are untouched |
| RecordStore.Store.VisitSubject | unsw_scrapper.py:188-205 | `get_subject` returns the file-name subject code and the page's followed links, and upserts the subject row |
| RecordStore.Store.WriteTermRows | unsw_scrapper.py:157-182 | one class upsert per decoded row, stopping at the first row that lacks a required key |
| RecordStore.Store.WriteTermBlock | unsw_scrapper.py:142-185 | the guarded block locates the summaries, then decodes and writes the first `num_terms`; any exception ends it and keeps earlier writes |
| RecordStore.Store.WriteSummaries | unsw_scrapper.py:154-182 | the `range(num_terms)` loop over the located tables |
| RecordStore.Store.WriteTermTable | unsw_scrapper.py:155-182 | one pass: decode the i-th summary table, then write its rows |
| RecordStore.Store.VisitCourse | unsw_scrapper.py:76-185 | `get_course`: a metadata exception propagates with nothing written; otherwise the course row is upserted and the term block runs, whose failure is caught; every new class row belongs to a stored course, so a store whose class rows all have their course keeps that invariant |
| RecordStore.WriteRowsOverlay | unsw_scrapper.py:157-182 | writing a term's rows overlays the table with what they write into an empty table, and whether the write completes does not depend on the table |
| RecordStore.WriteTermOverlay | unsw_scrapper.py:155-182 | the same for one pass of the term loop |
| RecordStore.WriteTermsOverlay | unsw_scrapper.py:154-182 | the same for the whole term loop |
| RecordStore.TermPhaseIdempotent | unsw_scrapper.py:142-185 | running a course page's term block twice leaves the class table as running it once |
| RecordStore.WriteRowsStaysInCourse | unsw_scrapper.py:163-182 | every class row added belongs to the visited course and year |
| RecordStore.WriteTermStaysInCourse | unsw_scrapper.py:155-182 | the same for one pass of the term loop |
| RecordStore.WriteTermsStaysInCourse | unsw_scrapper.py:154-182 | the same for the whole term loop |
| RecordStore.MalformedPageWritesNoClasses | unsw_scrapper.py:142-185 | when locating fails, or the first summary table fails to decode, no class row is written |
| RecordStore.ShortfallKeepsEarlierTerms | unsw_scrapper.py:154-185 | with fewer tables than `num_terms`, every table is written and the loop then stops with a failure |
| RecordStore.VisitCourseIdempotent | unsw_scrapper.py:120-185 | visiting the same course page twice leaves the course and class tables as one visit did |

## Left out

- HTTP fetching and HTML parsing (`parse_html`, lines 67-74). A page is given as
  already-extracted values. A table is its rows of cell texts. A course
  information cell is its class list and text. A course page is its
  terms-offered table, its course-information table and the tables of its
  second form body. A listing page is its anchors.
- Tree navigation. The model does not follow BeautifulSoup's recursive
  `find_all`/`find` over nested tables. This covers `find_all('tr')[0]` and
  `find_all('tr')` in `parse_term` (lines 28-29), `form_body[1]` and `tables[0]`
  and `[2]` (lines 82-87), `tables[1]` for the course information (line 108),
  and the marker search into descendant tables
  (line 146). The exceptions those lookups raise are not modelled. A table
  "contains a marker cell" when one of its own cells contains `SUMMARY OF `.
- The SQLite connection, cursor and commits (lines 227-243). The store is three
  maps. `INSERT OR REPLACE` is not modelled beyond the `DO UPDATE SET` column
  lists.
- The `cur is None` branch of `get_course`, which prints instead of writing
  (lines 136-138), and of `get_subject`, which skips the upsert (line 196). The
  model always writes to a store.
- `print` diagnostics, including the message printed by the `except` branch
  (lines 184-185). The branch is modelled as the term block returning `false`.
- Command-line flags, `tqdm`, `time.sleep`, and the crawl loop of `main`
  (lines 219-243). The `urlparse` prefix construction (lines 221-222) is also
  left out: `get_links` takes the prefix as a parameter.
- `datetime.today().year` (line 210) is a parameter of `Links.CheckYear`.
- Text.PathJoin: models two-argument POSIX `os.path.join` only.
- Rows left in `course.db` by earlier crawls. `sqlite3.connect` (line 229) reopens
  the file with them, while the store starts from an empty schema. Every write
  path is proved for any keyed store, so an earlier crawl's rows change only the
  starting maps.
