# EMBA countdown dashboard: schedule metrics

This project models the metrics pipeline of the EMBA countdown dashboard, a
Streamlit page. Its input is a class schedule: rows of a date plus an optional
morning (AM) and afternoon (PM) course label. The page shows four counters:

- **Classes left**: the number of schedule rows dated today or later.
- **Class weekends left**: the number of distinct Monday-to-Sunday weeks among those rows.
- **Courses left**: the number of distinct base courses among those rows. The
  base course of a label is what `extract_base_course` makes of it. For example,
  "Strategy 1" and "Strategy 2: Cases" both give "strategy".
- **Days until last class**: the days from today to the latest date of the schedule.

The pipeline is pure. It is modelled as datatypes, functions and lemmas in four modules:

- `Wrappers` (`wrappers.dfy`): `Option`, used for a NaN label cell and a date that did not parse.
- `Text` (`text.dfy`): Python's `str.lower()` and `str.strip()`, and the
  whitespace and digit classes of `re`.
- `Courses` (`courses.dfy`): `extract_base_course`. The split pattern
  `\s+\d+|[-–:]` is a declarative predicate, `CutAt`, and `FirstCut` finds its
  leftmost match.
- `Dashboard` (`dashboard.dfy`): how rows are dropped and filtered, the four
  counters, and `Compute`, which gives all four metrics for one upload and one day.

Conventions:

- A date is an `int` day number counted from 1970-01-01, a Thursday.
- `to_period('W')` is the W-SUN period, a week that ends on Sunday. Its bucket is
  `WeekOf(d) = (d + 3) / 7`, and bucket `w` runs from Monday `7w - 3` to Sunday `7w + 3`.
- Today's date is a parameter.

Behaviour of the page that is easy to misread:

- Classes left counts rows, so two identical rows on the same day count twice
  (`ClassesLeftCountsEveryRow`). It is not a count of distinct labels per day.
- Surviving rows keep their file order. They are not sorted by date.
- A label that starts with a separator gives the empty string, and `""` is a
  present value (`SeparatorFirstGivesEmptyBase`). So `""` counts as a course.
  Also, a morning label whose base course is `""` still wins over the afternoon
  label, because `combine_first` falls back only on a missing value.
- There is no exclusion window, no final-marker override of the last day, and no
  formatting of the time remaining. This page has none of them.

## Model

| member | source | states |
|---|---|---|
| `Courses.ExtractBaseCourse` | emba_countdown_dashboard.py:34-38 | The result is None exactly when the label is missing. A present result has no upper-case letter, no `-`, `–` or `:`, no whitespace directly followed by a digit, and no leading or trailing whitespace. |
| `Courses.Normalise` | emba_countdown_dashboard.py:36 | `name.lower().strip()` is never longer than the label, has no upper-case letter, and has no leading or trailing whitespace. |
| `Courses.CutAt` | emba_countdown_dashboard.py:37 | Where `\s+\d+` or `[-–:]` matches: every match starts with a separator or with whitespace, and a separator, or whitespace directly before a digit, always starts one. |
| `Courses.ExtractIsPrefixBeforeLeftmostMatch` | emba_countdown_dashboard.py:36-38 | For any `k` that is the leftmost match of the split pattern in the lower-cased, stripped label (or its length if nothing matches), the base course is that label's prefix up to `k`, stripped. |
| `Courses.FirstCut` | emba_countdown_dashboard.py:37 | The returned position is the leftmost match of the split pattern at or after `i`, or the end of the string: the pattern matches there, and nowhere before it. |
| `Courses.FirstCutIsLeftmost` | emba_countdown_dashboard.py:37 | The leftmost match position is unique: every `k` with the leftmost-match property equals `FirstCut`. |
| `Courses.BaseOfBase` | emba_countdown_dashboard.py:34-38 | A string with the shape of a base course is its own base course. |
| `Courses.ExtractIdempotent` | emba_countdown_dashboard.py:34-38 | Applying `extract_base_course` to its own output changes nothing. |
| `Courses.BaseCourseHasNoCut` | emba_countdown_dashboard.py:37 | The split pattern matches nowhere in a base course. |
| `Courses.LowerKeepsCuts` | emba_countdown_dashboard.py:36-37 | Lower-casing does not move any match of the split pattern. |
| `Courses.NumberedLabelsShareBase` | emba_countdown_dashboard.py:36-38 | A stem, alone or followed by a whitespace-then-digits suffix, gives the normalised stem, whatever whitespace surrounds the stem. The normalised stem must be non-empty and have no match. |
| `Courses.MatchFreeLabelIsBase` | emba_countdown_dashboard.py:36-38 | A label in whose normalised form the pattern matches nowhere gives that normalised form. |
| `Courses.NumberedStrategySessions` | emba_countdown_dashboard.py:36-38 | "Strategy" followed by any whitespace-then-digits suffix gives "strategy". |
| `Courses.StrategyDigit` | emba_countdown_dashboard.py:36-38 | "Strategy", a space and any one digit gives "strategy". |
| `Courses.StrategyOneAndTwo` | emba_countdown_dashboard.py:36-38 | "Strategy 1" and "Strategy 2" both give "strategy". |
| `Courses.SeparatorFirstGivesEmptyBase` | emba_countdown_dashboard.py:37-38 | A label whose normalised form starts with `-`, `–` or `:` gives the present empty string, not a missing value. |
| `Text.IsSpace` | emba_countdown_dashboard.py:36-37 | The whitespace of `strip()` and `\s`. It includes space, tab, newline and carriage return, and it is never a digit or an upper-case letter. |
| `Text.Lower` | emba_countdown_dashboard.py:36 | `str.lower()` keeps the length and leaves no upper-case letter. |
| `Text.Strip` | emba_countdown_dashboard.py:36 | `str.strip()` leaves no leading or trailing whitespace. |
| `Text.StripSpan` | emba_countdown_dashboard.py:36 | `strip()` returns a slice of its input, and everything it removes is whitespace. |
| `Text.StripIdempotent` | emba_countdown_dashboard.py:38 | Stripping twice is the same as stripping once. |
| `Dashboard.Parsed` | emba_countdown_dashboard.py:19 | One row gives at most one session. It gives one exactly when its date parsed, and that session has the row's date and labels. |
| `Dashboard.DropUnparsed` | emba_countdown_dashboard.py:18-19 | Every surviving session comes from an input row whose date parsed, and every such row survives. The result is never longer than the input. |
| `Dashboard.DropUnparsedAppend` | emba_countdown_dashboard.py:19 | Rows are dropped one by one, so dropping distributes over concatenation and keeps the original order. |
| `Dashboard.DropUnparsedKeepsParsed` | emba_countdown_dashboard.py:19 | When every date parsed, nothing is dropped, and row `i` becomes session `i`. |
| `Dashboard.Upcoming` | emba_countdown_dashboard.py:24 | The upcoming sessions are exactly the surviving sessions dated today or later. |
| `Dashboard.UpcomingAppend` | emba_countdown_dashboard.py:24 | The upcoming filter distributes over concatenation, so order is kept. |
| `Dashboard.ClassesLeft` | emba_countdown_dashboard.py:27 | Classes left is at most the number of sessions. It is 0 exactly when every session is before today. |
| `Dashboard.ClassesLeftCountsEveryRow` | emba_countdown_dashboard.py:24-27 | Appending a session raises classes left by 1 exactly when the session is today or later, even if an identical session is already there. |
| `Dashboard.WeekOf` | emba_countdown_dashboard.py:31 | A day's bucket `w` is the one whose Monday `7w - 3` is on or before the day and whose Sunday `7w + 3` is on or after it. |
| `Dashboard.WeeksEndOnSunday` | emba_countdown_dashboard.py:31 | The day after a Sunday starts a new bucket. Every other day shares its bucket with the next day. |
| `Dashboard.SameWeekIff` | emba_countdown_dashboard.py:31 | Two days share a bucket exactly when they have the same Monday. |
| `Dashboard.Weeks` | emba_countdown_dashboard.py:31 | The distinct `to_period('W')` buckets: every session's bucket is among them, and there are none exactly when there are no sessions. |
| `Dashboard.WeeksBound` | emba_countdown_dashboard.py:31 | There are no more distinct weeks than sessions. There are none exactly when there are no sessions. |
| `Dashboard.WeekendsLeft` | emba_countdown_dashboard.py:31 | Weekends left is at most classes left. It is 0 exactly when classes left is 0. |
| `Dashboard.SameWeekAddsNoWeekend` | emba_countdown_dashboard.py:31 | An upcoming session in a week that already has an upcoming session does not change weekends left. |
| `Dashboard.NewWeekAddsOneWeekend` | emba_countdown_dashboard.py:31 | An upcoming session in a week with no other upcoming session adds exactly 1. |
| `Dashboard.PastSessionAddsNoWeekend` | emba_countdown_dashboard.py:24-31 | A session before today never changes weekends left. |
| `Dashboard.SessionBaseCourse` | emba_countdown_dashboard.py:40-42 | A session's base course is missing exactly when both labels are missing. A present morning label decides it. Otherwise the afternoon label decides it. A present value has the shape of a base course. |
| `Dashboard.CourseSetMembers` | emba_countdown_dashboard.py:43 | A course is among the distinct courses exactly when some session has it as its base course. |
| `Dashboard.CourseSet` | emba_countdown_dashboard.py:43 | `.dropna().unique()`: the set is empty exactly when no session has a base course. |
| `Dashboard.CourseSetMono` | emba_countdown_dashboard.py:43-44 | The sessions of a sub-schedule have a subset of the courses, so they never have more. |
| `Dashboard.CourseSetBound` | emba_countdown_dashboard.py:43-44 | There are no more distinct courses than sessions. |
| `Dashboard.CoursesLeft` | emba_countdown_dashboard.py:43-44 | Courses left is at most classes left, and at most the number of distinct courses of the whole schedule. It is 0 exactly when every upcoming session has both labels missing. |
| `Dashboard.SameBaseCourseAddsNoCourse` | emba_countdown_dashboard.py:40-44 | An upcoming session whose base course already occurs among the upcoming sessions does not change courses left. |
| `Dashboard.NewCourseAddsOneCourse` | emba_countdown_dashboard.py:40-44 | An upcoming session whose base course no upcoming session has yet adds exactly 1. |
| `Dashboard.PastSessionAddsNoCourse` | emba_countdown_dashboard.py:43-44 | A session before today never changes courses left. |
| `Dashboard.UnlabelledSessionAddsNoCourse` | emba_countdown_dashboard.py:40-44 | A session with both labels missing never changes courses left, because `dropna` removes its missing base course. |
| `Dashboard.LastClassDay` | emba_countdown_dashboard.py:47 | The result is missing exactly for an empty schedule. Otherwise it is the date of some session and no session is later. |
| `Dashboard.DaysUntilLastClass` | emba_countdown_dashboard.py:47-48 | The result is missing exactly for an empty schedule. Otherwise it is the largest of the sessions' day offsets from today, past sessions included. It is negative exactly when no class is left. |
| `Dashboard.Compute` | emba_countdown_dashboard.py:14-48 | For one upload and one day: classes left is at most the number of rows; weekends left and courses left are at most classes left; weekends left is 0 exactly when classes left is 0; courses left is at most the distinct courses of the schedule. Days until last class is missing exactly when no date parsed, and negative exactly when no class is left. |
| `Dashboard.UnparsedRowIsIgnored` | emba_countdown_dashboard.py:18-19 | A row whose date did not parse changes none of the four metrics, wherever it stands. |

## Left out

- The Streamlit page is presentation only and is not modelled: page setup, the uploader, the metric widgets, the expander and the table of upcoming classes (lines 7-10 and 50-63).
- Reading the CSV with `pd.read_csv` and renaming the columns by position (lines 14 and 17) is library I/O. It is not modelled. The errors they raise on an empty file or a wrong number of columns are left out with it.
- The date parser `pd.to_datetime(..., format="%Y-%m-%d", errors='coerce')` (line 18) is a library call. Its result is the `Option<Day>` input of each `Row`.
- `datetime.today()` (line 21) reads the clock. Today is the `today` parameter.
- The `Weekend` column written at line 30 affects no output and is not modelled.
- `Text.Lower`: lower-cases only the ASCII letters A to Z. Python's `str.lower()` also folds other Unicode letters, and some of those change the length of the string.
- `Courses.ExtractBaseCourse`: `\d` is the ASCII digits only. Python's `\d` also matches other Unicode decimal digits. Whitespace is the full fixed set that `str.isspace()` accepts.
- Label cells that are neither NaN nor text (numbers, for example) are not modelled. There `.lower()` raises. Labels are `Option<string>`.
- For an empty schedule, pandas computes `NaT` and the page shows "nan days". `Dashboard.DaysUntilLastClass` returns None there.
