# Course-review pipeline of `update_page.py`

This project models the data pipeline of `update_page.py`. The script reads the course list of
OMS Central and cleans it into `df_plot`. It then parses every remaining course's review page
into rating/difficulty/workload records and groups them by semester. Finally it builds
`df_plot_semester_final`, the per-semester table behind the animated charts.

The model follows the script's structure:

- `outcomes.dfy` (module `Outcomes`): `Option`, `Result`, the three metric kinds, and the ways
  the script stops.
  - A never-assigned badge variable is a `NameError`.
  - An empty review list makes `groupby` fail.
  - An empty `df_plot` leaves the merge without a `name` column.
- `strings.dfy` (module `Strings`): the Python string operations the script uses, on
  `seq<char>`.
  - `in`, `split(sep)`, `split()`, `[0]` and `[-1]`, and slicing.
  - `isupper`, `isdigit` and `title()`.
  - The string order `sort_values` uses on the year column.
- `tables.dfy` (module `Tables`): selection of rows by a boolean mask, tables stacked one after
  another, and columns computed row by row.
- `cleaning.dfy` (module `Cleaning`), lines 50-71: the derived columns `code`, `dept` and `tag`,
  the `tags` override, the review-count filter, and the two-step "DC" workload correction.
  - The `iterrows` loop and the two `df.loc` assignments are methods over an `array`.
  - Each is proved against a function on the table.
- `badges.dfy` (module `Badges`), lines 97-113: the per-item loop.
  - The three badge variables are loop-carried state that is never reset.
  - `ParseReviewList` is the loop, proved equal to the function `ParseItems`.
- `grouping.dfy` (module `Grouping`), lines 114-116: `groupby(["name", "semester"])` with its
  means and counts, built from a tally per key.
- `aggregation.dfy` (module `Aggregation`), lines 77-117: the course loop. Its badge state
  carries over from one course to the next.
- `semesters.dfy` (module `Semesters`), lines 120-128: the merge with the course columns, the
  appended "All" rows, and the period/year split. Then the sort by (year as text, period
  category), the rebuilt label, and the filter on `!= 'All'`.
- `pipeline.dfy` (module `Pipeline`): the script from the course objects to
  `df_plot_semester_final`.
  - Downloading and parsing a course's review page is the parameter `fetch`. It maps a course
    name to the already-extracted list items of that page.

### Two behaviours of the code

- Only the courses that pass `reviewCount >= 5` (line 65) are fetched and grouped
  (lines 80-117). The threshold decides which review pages are read, not only which courses
  are charted.
- The comment at lines 68-69 says the "DC" course gets the workload of the second highest
  course. Lines 70-71 first set the "DC" rows to 0 and then take the column maximum. The value
  is therefore the larger of 0 and the other workloads. It is 0 when every other workload is
  negative, or when every row is a "DC" row. `Cleaning.DcCorrection` states exactly this.

## Model

| member | source | states |
|---|---|---|
| Strings.IndexOf | update_page.py:105-110 | the first occurrence of a pattern in a text, or None exactly when there is none (the `in` and `split` of the badge lines) |
| Strings.Split | update_page.py:106 | `str.split(sep)` gives at least one field, and no field contains the separator |
| Strings.JoinSplit | update_page.py:106 | joining the fields of `split(sep)` with the separator gives back the original text |
| Strings.FirstField | update_page.py:53 | `split(sep)[0]` is a prefix of the text, has no separator, and is the whole text or is followed by the separator |
| Strings.FirstFieldAt | update_page.py:106 | when the first separator starts at k, `split(sep)[0]` is exactly the first k characters |
| Strings.LastField | update_page.py:124 | `split(' ')[-1]` contains no space, is a suffix of the text, and is the whole text or directly follows a space |
| Strings.LastPiece | update_page.py:124 | the last field of `split(sep)` ends the text and is the whole text or follows an occurrence of the separator |
| Strings.FieldsWithoutSeparator | update_page.py:123-124 | a text without the separator is both its first and its last field, as the label "All" is |
| Strings.Words | update_page.py:56 | `str.split()` yields non-empty words without whitespace |
| Strings.WordsOfRun | update_page.py:56 | a text without whitespace splits into itself as the only word, or into no word when empty |
| Strings.WordsOfBlank | update_page.py:56 | whitespace alone splits into no words |
| Strings.WordLengthBefore | update_page.py:56 | a word ends at the first whitespace character |
| Strings.WordsAroundSpace | update_page.py:56 | the words of two texts joined by a whitespace character are the words of the first followed by those of the second |
| Strings.TitleIdempotent | update_page.py:100 | `title()` applied twice is `title()` applied once |
| Strings.Title | update_page.py:100 | `title()` keeps the length of the text |
| Strings.DecimalText | update_page.py:112 | the decimal numeral of a number is a non-empty string of digits |
| Strings.DecimalRoundTrip | update_page.py:111-112 | `float()` of the digit string written for n is n: `IsDigits` and `DecimalValue` agree with the numerals |
| Strings.StrLeTotal | update_page.py:126 | any two year strings are comparable in the string order |
| Strings.StrLeAntisymmetric | update_page.py:126 | two strings ordered both ways are equal |
| Strings.StrLeTransitive | update_page.py:126 | the string order on years is transitive |
| Tables.Filter | update_page.py:65 | a mask keeps rows in their order, keeps every row it accepts with its multiplicity, and keeps only accepted rows |
| Tables.ConcatMembers | update_page.py:114-117 | a row of stacked tables is a row of one of them, and every row of each is in it |
| Tables.ConcatBlock | update_page.py:114-117 | in stacked tables, the i-th table occupies the positions right after all tables before it |
| Tables.MapMembers | update_page.py:123-127 | a column computed row by row holds the results for the rows and only those |
| Tables.MapConcat | update_page.py:122-127 | a row-by-row computation over stacked tables is the stacked computations |
| Tables.MapPermutation | update_page.py:126-127 | a row-by-row computation over a reordering of the rows gives a reordering of the results |
| Cleaning.DeptOf | update_page.py:53 | `dept` is the prefix of `code` before the first `-`, or the whole code when there is none, and contains no `-` |
| Cleaning.InitialsTag | update_page.py:56 | the derived tag is upper-case letters only and no longer than the word count of the name |
| Cleaning.InitialsAreWordStartCapitals | update_page.py:56 | the tag is exactly the upper-case first characters of the words, in order |
| Cleaning.ListedTag | update_page.py:59-62 | the tag becomes `tags[0]` exactly when `tags` is a non-empty list; every other column is unchanged |
| Cleaning.ApplyListedTags | update_page.py:59-62 | the `iterrows` loop leaves every row as its `tags` override |
| Cleaning.Derive | update_page.py:50-56 | `code` is `codes[0]`, `dept` is its prefix before `-`, `tag` is the word-start capitals of the name, and the source columns are copied |
| Cleaning.KeepReviewed | update_page.py:65 | the filter keeps exactly the rows with `reviewCount >= 5`, in their original order and unchanged |
| Cleaning.MaxWorkload | update_page.py:71 | `df["workload"].max()` is one of the workloads and at least every workload |
| Cleaning.DcCorrection | update_page.py:70-71 | `DcCorrected`, the two `WithDcWorkload` steps: the non-DC rows are unchanged; every DC row has workload m and is otherwise unchanged; m is at least every non-DC workload; m is 0 or a non-DC row's workload; m is non-negative when there is a DC row |
| Cleaning.SetDcWorkload | update_page.py:70 | one `df.loc` assignment writes the value into the workload of exactly the DC rows, as `WithDcWorkload` does |
| Cleaning.CorrectDcWorkload | update_page.py:70-71 | the two assignments in place turn the table into its corrected form |
| Cleaning.DeriveCourses | update_page.py:50-62 | the derived columns and tag overrides, computed into a fresh table |
| Cleaning.CleanCourses | update_page.py:50-71 | the cleaning steps in order produce the cleaned table |
| Badges.Label | update_page.py:106-110 | the label of a well-formed badge has the length the slice drops (8, 12 or 10) |
| Badges.BadgeValue | update_page.py:106-110 | the extracted value contains no separator; it is empty for a text not longer than the prefix; otherwise it appears in the text right after the prefix |
| Badges.WellFormedBadge | update_page.py:106-110 | a badge of the form label + digits + separator + anything yields exactly the digits |
| Badges.ShortBadge | update_page.py:106-110 | a badge whose first separator starts within the prefix length yields the empty string |
| Badges.BadgeAt | update_page.py:106-110 | a badge whose first separator starts at a position past the prefix length yields exactly the text between the prefix and the separator |
| Badges.Read | update_page.py:105-110 | a badge mentioning a kind sets that kind's variable to its value; it leaves the variable alone otherwise, and never changes the other kinds |
| Badges.ReadBadgeGet | update_page.py:104-110 | the three `if`s for one badge update each kind independently |
| Badges.BadgesKeepMissing | update_page.py:103-110 | the badge function `ReadBadges`: the badges of an item that never mention a kind leave that kind's value as it was |
| Badges.LastBadgeWins | update_page.py:103-110 | the badge function `ReadBadges`: after an item's badges, a kind holds the value of the last badge that mentioned it |
| Badges.SemesterOf | update_page.py:98-101 | an item is considered exactly when it has a `capitalize` span whose title-cased text is not "Unknown Semester" |
| Badges.FirstUnbound | update_page.py:111 | the variable that raises the NameError is the first unassigned one in the order rating, difficulty, workload; there is none exactly when all three are assigned |
| Badges.StepItemEmits | update_page.py:98-113 | the step function `StepItem` emits a record exactly when the item is considered and all three current strings are digit-only; the record `RecordOf` holds the name, the semester and the decimal values of the three strings; a considered item raises a NameError exactly when some variable is unassigned (the first, which `FirstUnbound` names); an item that is not considered changes nothing |
| Badges.ParseErrorSticks | update_page.py:97-113 | once an item raises, the items after it do not matter |
| Badges.ReadItemBadges | update_page.py:103-110 | the badge loop of one item computes the carried state of the badge function |
| Badges.ParseItem | update_page.py:98-113 | one pass of the item loop computes the step function |
| Badges.ParseReviewList | update_page.py:95-113 | the item loop computes the records and carried state of the page function `ParseItems`, or its error |
| Badges.ParsedReviews | update_page.py:97-113 | at most one record per item; every record has the course name and a semester other than "Unknown Semester" taken from some item |
| Badges.MissingBadgeCarriesOver | update_page.py:97-113 | when no item after position j mentions a kind, that kind's value at the end is its value after item j |
| Badges.ParseConcat | update_page.py:97-113 | `ParseItems` on a page in two parts threads the state through and concatenates the records |
| Grouping.CountOfPositive | update_page.py:116 | a key has a positive count exactly when some record has it |
| Grouping.Add | update_page.py:115-116 | adding a record raises its key's count by one and its key's sums by its values, and nothing else |
| Grouping.AddKeepsKeysUnique | update_page.py:115 | adding a record keeps one tally per key |
| Grouping.Tallies | update_page.py:115-116 | the tally of each key counts and sums exactly that key's records, and the counts sum to the number of records |
| Grouping.TalliesUnique | update_page.py:115 | each key has at most one tally |
| Grouping.Group | update_page.py:115-116 | there are no more groups than records |
| Grouping.GroupKeysUnique | update_page.py:115 | each (name, semester) key appears in at most one grouped row |
| Grouping.GroupKeysFromRecords | update_page.py:115 | every grouped key is the key of some record |
| Grouping.RecordsHaveGroups | update_page.py:115 | every record's key has a grouped row |
| Grouping.GroupCounts | update_page.py:116 | each group's `reviewCount` is the number of its records and is at least 1; the counts sum to the number of records |
| Grouping.GroupMeans | update_page.py:115 | each group's mean of a metric is the sum over its records divided by their count |
| Grouping.MeanWithinGroup | update_page.py:115 | each mean lies between the smallest and the largest value of the group's records |
| Aggregation.AggregateErrorSticks | update_page.py:80-117 | once a course stops the loop, the later courses do not matter |
| Aggregation.AggregateCourses | update_page.py:77-117 | the course loop computes the concatenated groups and carried state of the aggregation function `AggregatePages`, or its error |
| Aggregation.AggregatedRows | update_page.py:114-117 | every aggregated row counts at least one review, has a semester other than "Unknown Semester", and is named after one of the courses |
| Aggregation.PageRows | update_page.py:114-116 | the groups of one page's records are counted, dated and named after the page's course |
| Aggregation.EveryCourseGrouped | update_page.py:114-117 | every course of the loop contributes a row in its own name |
| Aggregation.CarriedAcrossCourses | update_page.py:80-110 | a course page with no badge of a kind leaves that kind's value as the previous course left it |
| Semesters.Matches | update_page.py:121 | a grouped row joined with the courses gives one row per course of the same name, as many as there are such courses, each the grouped row with that course's columns |
| Semesters.Tagged | update_page.py:121 | the merged table holds exactly the grouped rows joined with the courses of the same name |
| Semesters.MatchesMembers | update_page.py:121 | joining a grouped row with the courses of its name gives exactly the rows pairing it with such a course |
| Semesters.TaggedMembers | update_page.py:121 | the union of the per-grouped-row blocks is the set of joined rows |
| Semesters.TaggedBlock | update_page.py:121 | the merged table is one block per grouped row, in order, and the i-th block is exactly that grouped row's matches, so each (grouped row, course) pair of equal names appears once |
| Semesters.PeriodText | update_page.py:127 | `astype(str)` of a period has no space |
| Semesters.PeriodTextNamesPeriod | update_page.py:125-127 | `PeriodFrom` of the text of a period is that period, for every category and for the missing one ("nan") |
| Semesters.KeyLeTotal | update_page.py:126 | any two rows are ordered by (year, period) one way or the other |
| Semesters.KeyLeTransitive | update_page.py:126 | the (year, period) order is transitive |
| Semesters.Insert | update_page.py:126 | inserting into a sorted table keeps it sorted and adds exactly the one row |
| Semesters.SortRows | update_page.py:126 | `sort_values(['year', 'semester period'])` gives a sorted permutation of its input |
| Semesters.SplitTwoTokens | update_page.py:123-124 | the tokens `KeyRow` takes from a label of two space-free tokens are exactly those tokens |
| Semesters.RelabelKeepsTwoTokenLabel | update_page.py:123-127 | for a two-token label with a known period, `KeyRow` reads that period and year, and `Relabel` rebuilds the original label |
| Semesters.RelabelUnknownPeriod | update_page.py:125-127 | a period outside the categories is rebuilt as "nan" followed by the year, and its key sorts after (or level with) every row of the same year, and strictly before every row of a later year ("nan 2019" comes before "Spring 2020") |
| Semesters.RelabelAllLabel | update_page.py:123-127 | the label "All" has period and year "All" and is rebuilt as "All All" |
| Semesters.AllAfterDigitYears | update_page.py:126 | in the sorted table, every "All" row comes after every row with a digit-only year |
| Semesters.FinalMembers | update_page.py:128 | the final table `Final` holds exactly the rows whose period is not "All" |
| Semesters.FinalSorted | update_page.py:128 | the filter keeps the order |
| Semesters.RelabeledMembers | update_page.py:127 | rebuilding the labels keeps the number of rows; every relabelled row comes from a row of the input, and every input row gives one |
| Semesters.RelabeledSorted | update_page.py:127 | rebuilding the labels keeps the order |
| Semesters.KeyRowsMembers | update_page.py:123-124 | the period and year columns are added to exactly the rows of the table |
| Semesters.SortedMembers | update_page.py:126 | sorting keeps exactly the rows of the table |
| Semesters.ArrangedRows | update_page.py:123-128 | the result is sorted, has no "All" period, holds exactly the relabelled rows of the input with another period, and holds each of them as often as the unsorted relabelled and filtered input does |
| Semesters.CourseTotalDropped | update_page.py:122-128 | every appended per-course row is dropped by the final filter |
| Semesters.JoinedRowsOnly | update_page.py:122-128 | the rows that survive the filter are exactly the joined grouped rows with another period |
| Semesters.TotalsDropped | update_page.py:122-128 | every relabelled per-course total has the period "All" |
| Semesters.FinalIgnoresAllTime | update_page.py:128 | rows the filter drops can be appended without changing what it keeps, or how often |
| Semesters.KeptCombinedTagged | update_page.py:122-128 | a row of `Combined` (the merge followed by the per-course totals) that survives the filter is a joined grouped row |
| Semesters.SemesterTableRows | update_page.py:120-128 | `df_plot_semester_final` is sorted, holds exactly the relabelled joined grouped rows whose period is not "All", and holds each as often as the relabelled and filtered merge does: the per-course totals add nothing |
| Pipeline.PagesOf | update_page.py:80-82 | one review page per course of `df_plot`, in table order, named after it |
| Pipeline.RunReport | update_page.py:50-128 | the script's steps in order compute the report function `Report` |
| Pipeline.ReportRows | update_page.py:50-128 | `Report` stops exactly when a page fails or no course is left; otherwise its table is sorted, has no "All" rows, and each row counts at least one review of a course with at least 5 reviews |
| Pipeline.MergeUnmatchedNone | update_page.py:121 | the outer merge has no unmatched side: every grouped row names a course of `df_plot`, and every course has a grouped row |
| Pipeline.CleanedReviewed | update_page.py:65-71 | every course of the cleaned table has at least 5 reviews |

## Left out

- The HTTP requests and the retry-once logic (lines 25-31 and 83-89) are network I/O. The
  retry path calls `time.sleep` although `time` is never imported, so it would fail itself.
- BeautifulSoup and the JSON extraction (lines 34-45, 92-94, 98 and 102) are foreign parsers.
  - The landing page is represented by course records.
  - Each list item is its `capitalize` span texts and its badge texts.
- `slugify` and the review URL (line 74) are not modelled. `fetch` is keyed by course name.
- `print(name)` (line 118) is output only.
- `str.title`, `isupper` and `isdigit` are modelled for ASCII letters and digits only.
  Whitespace for `split()` is the whitespace of the Latin-1 range. Python's Unicode case,
  digit and whitespace tables beyond those are not modelled.
- `float()` of a digit string is its decimal value as a natural number. Means are exact reals,
  not floating point.
- The outer merge of line 121 is modelled as a join on the name. `Pipeline.MergeUnmatchedNone`
  proves that neither side has unmatched rows, so no null columns arise.
- Row order where the script leaves it to pandas is not modelled. This covers the stable
  tie order of `sort_values`, the key order of `groupby`, and the row order of the merge.
  - `Semesters.SortRows` is an insertion sort. It is proved sorted and a permutation, not
    stable.
- Semesters.Tagged: lists the joined rows grouped row by grouped row. It does not follow the row
  order the pandas merge produces, which is only visible among rows with equal sort keys.
- The charts (line 130 onward) use floating point and plotting calls. This includes the
  `max - 0.2` axis padding at lines 140 and 167, the label rounding at lines 224 and 237, and
  the correlation at line 267.
- The timestamp and the HTML file writing (lines 271-316) are clock and file I/O.
- NaN entries in the numeric columns of the landing data are not modelled. Courses carry real
  workloads, and `tags` is either missing or a list.
- `codes[0]` on an empty `codes` list (line 50) is a precondition of `Cleaning.Derive`,
  `Cleaning.CleanCourses` and `Pipeline.RunReport`, not an error value.
- Badges.WellFormedBadge: states the extracted value for a digit-only `d`, not for any `d`
  free of the separator. A separator can also start inside the label or `d` and run into what
  follows: "Rating: / 3 / 5" yields "" although `d` = "/ 3" contains no " / ".
