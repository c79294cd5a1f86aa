# Attendance Tracker — a Dafny model of the roster parser

The Attendance Tracker records class attendance. A user pastes an attendance table
into a text box. The application reads one course code and
one status ("Present" or "Absent") from each line and stores an entry for each
line it can resolve against its table of known courses. This project models the
part that decides what gets stored:

- the **Desktop parser** (`Desktop/attendance_tracker.py`): `extract_course_code`,
  `extract_attendance_status`, `parse_attendance_data` and `validate_data`;
- the **root parser** (the top-level `attendance_tracker.py`, `parse_attendance_data`). It reads
  the same text but resolves lines differently; module `Versions` compares the two;
- the shared **field splitter** `re.split(r'\t+|\s{2,}', line)`, written out as a recursive function;
- the **default course table** and the **sample roster** the upload tab pre-fills;
- the helpers of **`utils.py`**: course-code and status validation, the safe
  percentage and file-name sanitising;
- the **web application's** attendance endpoints (`WebApp/Prompt/main.py`): marking
  attendance, which updates or inserts keyed on student, course and date, and listing
  one course's records.

Modules, in dependency order:

| module | file | models |
|---|---|---|
| `Wrappers` | wrappers.dfy | the optional result (`None` or a value) |
| `Strings` | strings.dfy | `isspace`, `strip`, ASCII `lower`, `in` on strings, `split('\n')` / `join` |
| `Tokenizer` | tokenizer.dfy | the split on `\t+` or two or more whitespace characters |
| `Courses` | courses.dfy | course table, statuses, entries, dictionary lookup, the substring search over codes, the line-text status rule |
| `Collect` | collect.dfy | the line loop shared by both parsers (`for line in lines: ... append`) |
| `DesktopParser` | desktop_parser.dfy | the Desktop parser and `validate_data` |
| `RootParser` | root_parser.dfy | the root parser |
| `Versions` | versions.dfy | where the two parsers agree and where they differ |
| `Sample` | sample.dfy | the default course table and the sample roster |
| `Utils` | utils.dfy | the helpers of `utils.py`: validation, percentage, file names |
| `WebStore` | webstore.dfy | `mark_attendance`, `get_attendance` |

The course table is a sequence of `Course(code, name)` rows in dictionary order.
The Desktop application also walks `set(courses.keys())`, and a set's iteration
order is not defined, so the Desktop parser takes that order as a parameter
`order`. `SameCodes(order, table)` requires that it lists exactly the table's codes.
Only the substring fallback depends on this order
(`DesktopParser.OrderIrrelevantWithExactField`).

The two parsers differ, and the model keeps each as written:

- **Code.** The Desktop parser takes the *first* field that is exactly a known code.
  The root parser takes the *last* (`Versions.FirstVersusLastCode`).
- **Status.** The Desktop parser takes the *first* status field. The root parser takes the
  *last* field that is a status word and not a code (`Versions.FirstVersusLastStatus`).
- **Header test.** The Desktop parser tests for the `S.No` prefix on the stripped line.
  The root parser tests the unstripped line, so an indented header is read as data
  (`Versions.IndentedHeader`).
- **Fallback search.** The root parser searches the unstripped line, in table order. The
  Desktop parser searches the stripped line, in set order.

On lines shaped like the sample's, the two parsers produce the same entry
(`Versions.VersionsAgree`), and both turn the sample into the same five entries
(`Sample.SampleParses`). The Desktop parser keeps the first code field
(Desktop/attendance_tracker.py:451-454); the root parser keeps the last
(attendance_tracker.py:311-314).

## Model

| member | source | states |
|---|---|---|
| Strings.Strip | Desktop/attendance_tracker.py:487 | the stripped line has no whitespace at either end, is no longer than the line, and is empty exactly when the line is all whitespace |
| Strings.StripSlice | Desktop/attendance_tracker.py:487 | stripping removes only whitespace, and only at the two ends: the result occurs in the line between two all-whitespace stretches |
| Strings.StripIdempotent | Desktop/attendance_tracker.py:487 | stripping is idempotent: stripping an already stripped text changes nothing |
| Strings.Lower | Desktop/attendance_tracker.py:466 | ASCII `lower()`: same length, each capital letter lowered and every other character kept |
| Strings.LowerIdempotent | Desktop/attendance_tracker.py:466 | lowering a lowered text changes nothing |
| Strings.Contains | Desktop/attendance_tracker.py:458 | `sub in s` holds exactly when `sub` occurs in `s` at some position |
| Strings.ContainsTransitive | Desktop/attendance_tracker.py:458 | a substring of a substring of the line is a substring of the line |
| Strings.SplitOn | Desktop/attendance_tracker.py:483 | `split('\n')` returns at least one piece, and no piece contains a newline |
| Strings.JoinSplit | Desktop/attendance_tracker.py:483 | joining the pieces of `split('\n')` with newlines gives the text back |
| Strings.SplitJoin | Desktop/attendance_tracker.py:483 | splitting newline-free lines joined by newlines gives exactly those lines back |
| Tokenizer.MatchLen | Desktop/attendance_tracker.py:492 | a separator match starts at a position exactly when there is a tab there, or two whitespace characters in a row; it covers only whitespace, and it is greedy: a tab match takes every following tab, and a whitespace match every following whitespace character |
| Tokenizer.Split | Desktop/attendance_tracker.py:492 | the split returns at least one field; the first field is a prefix of the line; every field has no tab and no two adjacent whitespace characters, and occurs in the line |
| Tokenizer.Separators | Desktop/attendance_tracker.py:492 | the text the split cuts out between consecutive fields: one piece fewer than the fields, each a run of tabs or two or more whitespace characters |
| Tokenizer.SplitRoundTrip | Desktop/attendance_tracker.py:492 | the split loses nothing: the fields put back between the separators give the line exactly, including fields that start with a single blank |
| Tokenizer.SplitScans | Desktop/attendance_tracker.py:492 | the split cuts the line as the regex scan does, leftmost match first: no match begins inside a field, and each separator is the whole greedy match at its offset |
| Tokenizer.ScanUnique | Desktop/attendance_tracker.py:492 | only one cutting of a line into fields and separators follows that scan |
| Tokenizer.ScanIsSplit | Desktop/attendance_tracker.py:492 | a cutting follows the scan exactly when it is the split's fields and separators |
| Tokenizer.DoubleTab | Desktop/attendance_tracker.py:492 | `a<TAB><TAB>b` splits into `a` and `b` around the one separator `<TAB><TAB>`; cutting it into `a`, an empty field and `b` does not follow the scan |
| Tokenizer.SplitCleanLine | Desktop/attendance_tracker.py:492 | a line with no tab and no two adjacent blanks is a single field |
| Tokenizer.SplitFirstField | Desktop/attendance_tracker.py:492 | a clean field followed by a whole separator is cut off as the first field, and the rest is split on its own |
| Tokenizer.SplitAfterSeparator | Desktop/attendance_tracker.py:492 | a line that starts with a whole separator splits into an empty first field followed by the fields of the rest |
| Tokenizer.SplitGlue | attendance_tracker.py:304 | text in which no separator starts, put in front of a line, joins that line's first field and leaves the other fields alone |
| Tokenizer.SplitTwo | attendance_tracker.py:304 | two words around a separator split into exactly those two fields |
| Tokenizer.SplitThree | attendance_tracker.py:304 | three words separated by separators split into exactly those three fields |
| Tokenizer.WordsJoin | Desktop/attendance_tracker.py:284 | names made of words joined by single blanks stay one field |
| Collect.Lines | Desktop/attendance_tracker.py:483 | the lines of the stripped text: at least one, none containing a newline |
| Collect.FilterMap | Desktop/attendance_tracker.py:485-503 | the loop keeps at most one entry per line, and each entry is the result of some line |
| Collect.FilterMapOrigins | Desktop/attendance_tracker.py:485-503 | each entry comes from its own line, entries keep line order, and every line without an entry produced nothing |
| Collect.FilterMapAppend | attendance_tracker.py:301-339 | parsing two blocks of lines is parsing each block and concatenating the entries |
| Collect.FirstSome | Desktop/attendance_tracker.py:464-468 | the search returns what the first element that yields a result yields, and nothing exactly when no element yields one |
| Collect.FilterMapAll | attendance_tracker.py:301-339 | when every line yields an entry, the entries are exactly those, position for position |
| Courses.Lookup | Desktop/attendance_tracker.py:500 | the name lookup succeeds exactly for the table's codes, and returns the name of a row with that code |
| Courses.LookupFirst | attendance_tracker.py:18-32 | in a table whose keys are not repeated, a code's lookup gives that row's name |
| Courses.FirstContained | Desktop/attendance_tracker.py:456-459 | the substring fallback returns the first code, in the given order, that occurs in the line; it returns none exactly when no code occurs |
| Courses.StatusWord | Desktop/attendance_tracker.py:466-468 | a field spells Present exactly when its lowered text is `present`, and Absent exactly when it is `absent` |
| Courses.StatusTextRoundTrip | attendance_tracker.py:315-316 | the title-cased spelling of a status, lowered, is read back as that status |
| Courses.StatusWordIgnoresCase | Desktop/attendance_tracker.py:466-467 | a field and its lowered form spell the same status, so case never matters |
| Courses.LineStatus | Desktop/attendance_tracker.py:470-476 | the line-text rule gives Absent exactly when "absent" occurs in the lowered line and "present" does not; otherwise Present |
| DesktopParser.FirstExactCode | Desktop/attendance_tracker.py:450-454 | returns the stripped text of the first field that is exactly a known code, and none exactly when no field is |
| DesktopParser.ExtractCourseCode | Desktop/attendance_tracker.py:448-460 | with an exact field, the first such field wins; without one, the result is a code occurring in the line, and none exactly when no code occurs |
| DesktopParser.FirstStatusWord | Desktop/attendance_tracker.py:464-468 | the status of the first field that spells present or absent in any case; none exactly when no field does |
| DesktopParser.FirstStatusUnique | Desktop/attendance_tracker.py:464-468 | when a field is the first status field, the search returns that field's status |
| DesktopParser.FirstStatusWins | Desktop/attendance_tracker.py:464-468 | when a line gives an entry, the first status field's word is the entry's status |
| DesktopParser.FallbackStatus | Desktop/attendance_tracker.py:470-476 | when a line gives an entry and no field is a status word, the stripped line's text decides the status |
| DesktopParser.FallbackCode | Desktop/attendance_tracker.py:456-459 | with no exact code field, when the first code in set order that occurs in the stripped line is non-empty, the line gives an entry with that code |
| DesktopParser.ExtractAttendanceStatus | Desktop/attendance_tracker.py:462-476 | the first status field decides; with no status field, the line's text decides |
| DesktopParser.ParseLine | Desktop/attendance_tracker.py:486-503 | blank and `S.No` lines give nothing; an entry carries a non-empty known code, the table's name for it, and a code occurring in the stripped line |
| DesktopParser.CodeOccursInLine | Desktop/attendance_tracker.py:448-460 | whatever code extraction returns occurs in the line |
| DesktopParser.ParseAttendanceData | Desktop/attendance_tracker.py:478-505 | all-blank text gives no entries; there are no more entries than lines; every entry's code is known and carries the table's name |
| DesktopParser.UnknownCodes | Desktop/attendance_tracker.py:512-515 | a code is listed exactly when some entry carries it and it is not in the table; the list has one code per offending entry, in entry order, as the loop over the entries keeps them |
| DesktopParser.ValidateData | Desktop/attendance_tracker.py:507-520 | no data gives NoData; Valid exactly when data is non-empty and every code is known; otherwise the non-empty list of unknown codes |
| DesktopParser.JoinComma | Desktop/attendance_tracker.py:518 | every code of the list occurs in the comma-joined text |
| DesktopParser.VerdictMessage | Desktop/attendance_tracker.py:509-520 | the text `Data is valid` comes exactly with a valid verdict; the failure text starts with `Invalid course codes: ` and names every unknown code |
| DesktopParser.ExactFieldWins | Desktop/attendance_tracker.py:450-454 | a line with a field that is exactly a known code yields an entry for the first such field, whatever order the code set is walked in |
| DesktopParser.SameFirstExact | Desktop/attendance_tracker.py:199 | the exact-field match is the same whether the codes are listed by the set or by the table |
| DesktopParser.OrderIrrelevantWithExactField | Desktop/attendance_tracker.py:456-459 | only the substring fallback depends on the set order: with an exact field, any two listings of the codes give the same result |
| DesktopParser.EntriesFollowLines | Desktop/attendance_tracker.py:483-505 | every entry comes from its own line, entries follow line order, and every other line is one the loop drops |
| DesktopParser.ParsedDataValidates | Desktop/attendance_tracker.py:498 | what the parser returns never fails validation on its codes: it is Valid, or NoData when empty |
| RootParser.FoldSnoc | attendance_tracker.py:311-316 | running the field loop over one more field is one more loop step |
| RootParser.FieldLoop | attendance_tracker.py:311-316 | after the loop, the code is the text of the last field that is a known code (none if there is none), and the status is the one spelled by the last non-code status field (none if there is none) |
| RootParser.FoldLast | attendance_tracker.py:313-316 | the loop keeps the last code field and the last status field, by induction on the fields |
| RootParser.ResolveCode | attendance_tracker.py:319-323 | a non-empty loop code is kept; otherwise the first code, in table order, occurring in the unstripped line, and none exactly when no code occurs |
| RootParser.ResolveStatus | attendance_tracker.py:310-332 | the word of the last field that is a status word and not a code; with no such field, the status the raw line's text implies |
| RootParser.ParseLine | attendance_tracker.py:301-339 | blank lines and lines starting with `S.No` before stripping give nothing; an entry carries a non-empty known code, its table name and a code occurring in the raw line |
| RootParser.LoopCodeInLine | attendance_tracker.py:311-323 | the code the loop or the fallback finds is known and occurs in the raw line |
| RootParser.ParseAttendanceData | attendance_tracker.py:296-341 | no more entries than lines; every entry's code is known and carries the table's name |
| RootParser.LastCodeWins | attendance_tracker.py:313-314 | the last field that is exactly a known code decides the entry's code, whatever code fields come before it |
| RootParser.FallbackCode | attendance_tracker.py:318-323 | with no code field, the code is the first known code in table order that occurs in the raw line; with none occurring, the line is dropped |
| RootParser.FallbackCodeFound | attendance_tracker.py:318-323 | with no code field, a non-empty known code occurring in the raw line does give an entry: for the first such code in table order |
| RootParser.LastStatusWins | attendance_tracker.py:315-316 | the last field that is a status word and not a code decides the status |
| RootParser.FallbackStatus | attendance_tracker.py:325-332 | with no status field, the status comes from the raw line's text |
| RootParser.EntriesFollowLines | attendance_tracker.py:298-341 | every entry comes from its own line, entries follow line order, and every other line is one the loop drops |
| Versions.VersionsAgree | attendance_tracker.py:301-316 | on a stripped line with one code field and at most one status field, the two parsers give the same entry, or both give none |
| Versions.FirstVersusLastCode | attendance_tracker.py:311-314 | on a line with two code fields, the Desktop parser keeps the first and the root parser the last |
| Versions.IndentedHeader | attendance_tracker.py:302 | a header line behind a blank is skipped by the Desktop parser and read as an entry by the root parser |
| Versions.FirstVersusLastStatus | attendance_tracker.py:315-316 | on a line with two status fields, the Desktop parser records the first and the root parser the last |
| Sample.DesktopRow | Desktop/attendance_tracker.py:284-288 | the Desktop parser reads a sample row as its code, the table's name for it, and Present |
| Sample.RootRow | attendance_tracker.py:184-188 | the root parser reads a sample row the same way |
| Sample.HeaderSkipped | attendance_tracker.py:183 | both parsers skip the sample's header row |
| Sample.SampleLines | Desktop/attendance_tracker.py:283-288 | the sample text splits into its header and five rows |
| Sample.SampleParses | Desktop/attendance_tracker.py:283-288 | both parsers turn the sample into five Present entries, in row order, with the default table's names |
| Sample.TwoCodesExample | Desktop/attendance_tracker.py:450-454 | on `16242101<TAB>16242102` the Desktop parser records 16242101 and the root parser 16242102 |
| Sample.IndentedHeaderExample | Desktop/attendance_tracker.py:487-489 | ` S.No.<TAB>16242101` is skipped by the Desktop parser and gives an entry for 16242101 in the root parser |
| Sample.TwoStatusesExample | Desktop/attendance_tracker.py:464-468 | on `16242101<TAB>Absent<TAB>Present` the Desktop parser records Absent and the root parser Present |
| Utils.ValidateCourseCode | utils.py:10-15 | accepts exactly six to ten ASCII letters or digits, or seven to eleven characters whose last is a newline and whose rest are six to ten letters or digits |
| Utils.ValidateCourseCodeStrict | utils.py:14 | accepts exactly six to ten ASCII letters or digits |
| Utils.TrailingNewlineAccepted | utils.py:15 | `16242101` followed by a newline passes the check as written and fails the intended rule |
| Utils.NewlineAppended | utils.py:10-15 | every code the intended rule accepts, followed by a newline, passes the check as written and fails the intended rule |
| Utils.StrictAgrees | utils.py:15 | without a final newline, the check as written and the intended rule agree |
| Utils.CourseCodeExamples | test_basic.py:18-21 | `16242101` and `NEC00076` pass; `short` and the empty string fail |
| Utils.ValidateAttendanceStatus | utils.py:18-22 | true exactly when the stripped, lowered text is `present` or `absent` |
| Utils.StatusExamples | test_basic.py:24-26 | `Present` and `Absent` pass; `invalid` fails |
| Utils.ParsedStatusesValid | utils.py:22 | every status the parsers produce, written out, passes the status check |
| Utils.SafePercentage | utils.py:32-36 | 0 for a zero denominator; otherwise a value that, times the denominator, is 100 times the numerator |
| Utils.PercentageExamples | test_basic.py:29-31 | 50 of 100 is 50, 0 of 0 is 0, 3 of 4 is 75 |
| Utils.PercentageBounds | utils.py:36 | a part of a positive whole is between 0 and 100 percent |
| Utils.SanitizeFilename | utils.py:44-50 | the result has the same length; each of `<>:"/\|?*` becomes `_` and every other character is kept |
| Utils.ReplaceEachAt | utils.py:48-49 | replacing the characters one after another replaces every one of them, and nothing else |
| Utils.SanitizedIsClean | utils.py:47 | a sanitised name contains none of the invalid characters |
| Utils.SanitizeIdempotent | utils.py:44 | sanitising twice is sanitising once |
| Utils.SanitizeKeepsCleanNames | utils.py:48 | a name with no invalid character comes back unchanged |
| WebStore.FindFirst | WebApp/Prompt/main.py:39-43 | the query returns the first row with the request's student, course and date, and none exactly when there is no such row |
| WebStore.MarkAttendance | WebApp/Prompt/main.py:36-55 | the returned row has the request's key and status; an existing row (the first match) gets the new status in place; otherwise one new row is appended |
| WebStore.GetAttendance | WebApp/Prompt/main.py:57-59 | a row is listed exactly when it is stored and belongs to the course |
| WebStore.MarkThenFind | WebApp/Prompt/main.py:45-49 | after marking, the same query finds a row with the new status |
| WebStore.MarkIdempotent | WebApp/Prompt/main.py:38-49 | marking the same request twice leaves the table as marking it once |
| WebStore.MarkKeepsKeysUnique | WebApp/Prompt/main.py:38-51 | if no two rows share student, course and date, marking keeps it so |
| WebStore.MarkGrowsByAtMostOne | WebApp/Prompt/main.py:51-52 | marking adds at most one row |
| WebStore.MarkLeavesOtherCourses | WebApp/Prompt/main.py:57-59 | marking attendance for one course does not change another course's listing |
| WebStore.GetAppend | WebApp/Prompt/main.py:59 | listing two stretches of the table is listing each and concatenating |

## Left out

- The Tkinter interface: the tabs, the buttons, the statistics view, the message boxes and `upload_data`.
- The SQLite store: creating tables, inserting rows and the statistics queries. The course table the parsers read is a parameter.
- The order of `set(courses.keys())`: the language leaves it undefined, so it is the parameter `order`.
- Reading configuration, logging, the clock and `format_timestamp`: these are I/O.
- `ensure_directory_exists` and `get_default_font`: they touch the file system or the platform and compute nothing the parser uses.
- The regex engine: two patterns are written out by hand and nothing else is modelled: the split pattern `\t+|\s{2,}` both parsers use, as a scan (`Tokenizer`), and the course-code pattern `^[A-Za-z0-9]{6,10}$` of `utils.py`, with its `$` (`Utils.ValidateCourseCode`).
- Unicode beyond ASCII: `lower()` lowers only ASCII capitals. `title()` is replaced by the `Status` value and its spelling `StatusText`. `isspace()` is modelled on Python's list of whitespace characters.
- The `isinstance(..., str)` checks in `utils.py`: the Dafny arguments are typed strings, so they cannot fail.
- Utils.SafePercentage: computed over exact reals, so it does not model floating-point rounding or the integer-to-float conversion.
- The web application's framework: FastAPI routing, pydantic validation, SQLAlchemy sessions, and commit/refresh.
- `create_student`, `create_course`, `get_students` and `get_courses` in the web application: they are plain inserts and listings around the attendance endpoints.
- WebStore.MarkAttendance: the id the database assigns to a new row is the parameter `newId`. `.first()` without an ordering is taken to return the earliest stored match.
- The date in a request is three integers with no calendar validation. pydantic performs that validation.

## Findings

| source | as written | input that shows it | evidently intended | confidence | as-written member | corrected member |
|---|---|---|---|---|---|---|
| utils.py:15 | `re.match` with `^...{6,10}$` accepts a code followed by one newline, because `$` also matches just before a final newline | `"16242101\n"` is accepted | only six to ten letters or digits, nothing after them (`\Z` or `re.fullmatch`) | high; not executed | Utils.TrailingNewlineAccepted | Utils.ValidateCourseCodeStrict |
