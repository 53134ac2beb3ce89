# University timetable generator and run-collapsing deduplication

This project models two pieces of code in Dafny. The first is the in-memory generator
class `UniversityTimetableGenerator` from `tk_auto_time_table_gen_.py`. The second is
`Solution.removeDuplicates` from `leetday3.py`.

The generator keeps these catalogs:
- courses, faculty and programs, in dictionaries keyed by code or id;
- rooms and time slots, in lists that only grow.

It builds time slots as the product of days and start times. It computes each end time
with minutes arithmetic on `"HH:MM"` strings. It then fills a nested timetable,
semester → program → day → `"start-end"` → entry, greedily. For every hour of every
listed course it picks a random free slot of the right kind, a random room of that kind
and a random faculty member. It can also show one (semester, program) sub-table as text.

`removeDuplicates` moves a write pointer along a list. It copies each value that differs
from the last one kept, so each run of equal neighbours collapses to one element. It
returns the length of the collapsed prefix.

Modules:
- `Wrappers`: `Option` and `Outcome`.
- `Decimal`: Python's `int(s)` on ASCII text, `str(n)` and `f"{n:02d}"`.
- `ClockTime`: `str.split`/`join` with one separator, reading `"HH:MM"`, and
  `_calculate_end_time`.
- `TimetableData`: the entities, the occupied cells of a sub-table, placing an entry,
  installing a sub-table, the slot batches of `set_time_slots` and the assignment
  attempts a course list asks for.
- `StringOrder`: Python's `<` on strings and `sorted` of a set of strings.
- `TimetableView`: the rows and cells of `get_semester_timetable_text`.
- `Timetable`: the generator class. Its fields are `map`s and `seq`s, and every method
  names the fields it modifies.
- `Dedup`: `removeDuplicates` on an `array<int>`, specified by the run-collapsing
  function `Collapse`.

How the source's side effects become Dafny:
- Each `random.choice` is a nondeterministic pick (`:|`). Every property therefore holds
  whichever element is picked.
- A `ValueError` from `generate_semester_timetable` becomes a `Fail` outcome.
- A start time that `int()` cannot read makes `set_time_slots` raise. This becomes
  `ok == false`, together with the slots that were appended before the raise.
- The printed warning of `_assign_course_slot` becomes a returned `Unassigned` warning.
- The `tabulate` call is replaced by the header and rows it is given.

## Model

| member | source | states |
|---|---|---|
| Timetable.UniversityTimetableGenerator.constructor | tk_auto_time_table_gen_.py:9-15 | All five catalogs and the timetable start empty. |
| Timetable.UniversityTimetableGenerator.AddCourse | tk_auto_time_table_gen_.py:17-24 | The course map gains or overwrites exactly the entry for `code`. Every other key is unchanged. No other field is modified. |
| Timetable.UniversityTimetableGenerator.AddFaculty | tk_auto_time_table_gen_.py:26-30 | The faculty map gains or overwrites exactly the entry for the id. Every other key is unchanged. |
| Timetable.UniversityTimetableGenerator.AddProgram | tk_auto_time_table_gen_.py:32-36 | The program map gains or overwrites exactly the entry for the id. Existing sub-tables still belong to registered programs. |
| Timetable.UniversityTimetableGenerator.AddRoom | tk_auto_time_table_gen_.py:38-43 | Exactly one room is appended. The earlier rooms are unchanged. |
| Timetable.UniversityTimetableGenerator.SetTimeSlots | tk_auto_time_table_gen_.py:45-53 | Succeeds exactly when there are no days or every start time reads. On success the slot list becomes the old list followed by the days × start-times batch. Otherwise it becomes the old list followed by the first day's slots up to the first bad start time. |
| Timetable.UniversityTimetableGenerator.AppendDaySlots | tk_auto_time_table_gen_.py:47-53 | For one day, appends one slot per start time, in order, stopping at the first start time that does not read. The result says whether every start time read. |
| TimetableData.SlotBatchLength | tk_auto_time_table_gen_.py:45-53 | When every start time reads, the batch holds exactly (number of days) × (number of start times) slots. |
| TimetableData.SlotBatchAt | tk_auto_time_table_gen_.py:45-53 | Position i × (number of start times) + j of the batch is the slot (days[i], starts[j], its end time, kind). This is days outer, times inner, each slot with the given type. |
| TimetableData.DayRowAt | tk_auto_time_table_gen_.py:47-53 | A day's row holds one slot per start time before the first one that does not read. The j-th slot carries the j-th start time and its end time. |
| TimetableData.DayRowTruncates | tk_auto_time_table_gen_.py:47-51 | A day's row ends at the first start time that does not read: the start times after it contribute nothing. |
| TimetableData.FirstUnparsedMeans | tk_auto_time_table_gen_.py:47-51 | Every start time before the first failure reads, and the one at the failure does not. |
| TimetableData.FirstUnparsedAt | tk_auto_time_table_gen_.py:47-51 | Conversely, a position before which everything reads and at which reading fails is the first failure. |
| ClockTime.EndTimeCorrect | tk_auto_time_table_gen_.py:55-58 | The end time exists exactly when the start time reads as two integer fields. It reads back as a clock whose total minutes are the start's plus the duration. Its minute field is two digits and in [0, 60). Its hour field is at least two characters, and all digits when the total minutes are not negative. |
| ClockTime.EndTime | tk_auto_time_table_gen_.py:55-58 | `_calculate_end_time` returns exactly when the start time reads; otherwise the source raises. |
| ClockTime.PaddedClockReads | tk_auto_time_table_gen_.py:58 | The text `f"{h:02d}:{m:02d}"` splits on ':' into its two padded fields and reads back as (h, m). |
| ClockTime.ParseTime | tk_auto_time_table_gen_.py:56 | `map(int, s.split(':'))` unpacked into two values: succeeds exactly when there are two fields and both read. The string is then the two fields joined by ':', and they read as the hours and the minutes. |
| ClockTime.Split | tk_auto_time_table_gen_.py:56 | `s.split(sep)` gives at least one field, and no field contains the separator. |
| ClockTime.EndTimePastMidnight | tk_auto_time_table_gen_.py:55-58 | Hours are not reduced modulo 24: "23:30" plus 90 minutes ends at "25:00". |
| ClockTime.JoinSplit | tk_auto_time_table_gen_.py:56 | Joining the fields of `split(':')` with ':' gives back the original string. |
| ClockTime.SplitJoin | tk_auto_time_table_gen_.py:56 | Splitting a ':'-join of ':'-free fields gives back the fields. |
| Decimal.ZeroPad2RoundTrip | tk_auto_time_table_gen_.py:58 | `f"{n:02d}"` reads back as `n`. It is at least two characters wide, all digits for n ≥ 0, exactly two characters for 0 ≤ n < 100, and contains no ':'. |
| Decimal.ZeroPad2 | tk_auto_time_table_gen_.py:58 | At least two characters; a leading '-' exactly for a negative number, and digits after it. |
| Decimal.ParseInt | tk_auto_time_table_gen_.py:56 | `int(s)` succeeds exactly on one or more digits with an optional leading sign. The value is never negative without a '-' and never positive with one. |
| Decimal.IntToString | tk_auto_time_table_gen_.py:143 | `str(n)`: a leading '-' exactly for a negative number, and digits after it. |
| Decimal.IntToStringRoundTrip | tk_auto_time_table_gen_.py:143 | The semester number printed in the heading reads back as the same integer. |
| Timetable.UniversityTimetableGenerator.GenerateSemesterTimetable | tk_auto_time_table_gen_.py:60-89 | An unknown program gives `ProgramNotFound` and a missing semester gives `SemesterNotFound`. In both cases the timetable is unchanged. Otherwise the (semester, program) sub-table exists afterwards and is the only one installed. The new sub-table and the warnings are what the course-hours of the listed courses produce when attempted one after another from the old sub-table: in list order, each catalogued course's lecture hours then its lab hours. Each attempt either fills a free slot of its kind with that course's entry or, when none is free, changes nothing and adds the warning for that course and kind. |
| Timetable.UniversityTimetableGenerator.AssignCourseHours | tk_auto_time_table_gen_.py:74-89 | One listed code: the attempts made so far are extended by exactly that code's attempts, none when it is not catalogued, otherwise its lecture hours and then its lab hours. |
| Timetable.UniversityTimetableGenerator.AssignHours | tk_auto_time_table_gen_.py:79-89 | `range(hours)` attempts for this course and session kind, none when `hours` is negative. The attempts made so far are extended by exactly these, each filling a free slot of the kind or adding this course and kind's warning. |
| Timetable.GeneratedSnoc | tk_auto_time_table_gen_.py:79-117 | One attempt whose outcome is as `_assign_course_slot` gives it extends what the earlier attempts produced by that attempt. |
| Timetable.GeneratedGrows | tk_auto_time_table_gen_.py:73-117 | What the attempts produced, in aggregate: every earlier cell is kept; new cells and warnings together number the attempts; each new cell holds an attempted course-hour of its session's kind, in a slot of that kind, with a room and faculty member the pickers allow; each warning is for an attempted course-hour whose kind has no free slot left; and a sub-table with no free slot at all stays as it was. |
| Timetable.WorkedExample | tk_auto_time_table_gen_.py:60-117 | CS101 with three lecture hours and no lab hours, as the only course of the semester, and four Monday lecture slots: from an empty sub-table, generation fills exactly three cells, all Monday CS101 lectures. It issues no warning and leaves a lecture slot free, whichever slots are picked. |
| Timetable.UniversityTimetableGenerator.AssignCourseSlot | tk_auto_time_table_gen_.py:91-117 | Fills a cell exactly when a slot of the needed kind is free. Otherwise the timetable is unchanged. When filled, the one new cell is a free slot of that kind holding the course's entry, and only this sub-table changes. |
| Timetable.GrewFromBound | tk_auto_time_table_gen_.py:73-89 | After generation every earlier cell is still occupied, and at most one cell per attempted course-hour is new. |
| Timetable.AttemptKeepsGrowth | tk_auto_time_table_gen_.py:91-117 | One attempt keeps the aggregate count, with one more attempt: a filled attempt adds one cell for its course-hour, an unfilled one adds its own warning. |
| Timetable.FilledKeepsGrowth | tk_auto_time_table_gen_.py:113-117 | Writing into a free cell keeps every earlier cell as it was and adds exactly one. Earlier warnings stay justified. |
| Timetable.FilledCellsPlaced | tk_auto_time_table_gen_.py:105-117 | After a filled attempt every new cell holds an attempted course-hour of its session's kind, with the room and faculty the pickers allow. |
| TimetableData.PlaceAddsOneCell | tk_auto_time_table_gen_.py:113-117 | Writing into an empty cell adds exactly that cell. Every other cell keeps its entry, and the entry is stored there. |
| TimetableData.Place | tk_auto_time_table_gen_.py:113-117 | Writing one cell: the entry is stored at (day, key) and the day's column is created when missing. Every other day and every other key of that day keep their entries. |
| TimetableData.Taken | tk_auto_time_table_gen_.py:119-128 | A slot is taken exactly when its (day, "start-end") cell is occupied in the sub-table. |
| TimetableData.FreeSlots | tk_auto_time_table_gen_.py:92-97 | `available_slots`: exactly the slots of the needed kind whose cell is not taken, never more than there are slots. |
| TimetableData.ExtendsKeepsAllTaken | tk_auto_time_table_gen_.py:92-101 | Once every slot of a kind is taken it stays taken while cells are only added, so an earlier warning stays justified. |
| TimetableData.InstallFrame | tk_auto_time_table_gen_.py:68-71 | Installing a sub-table sets exactly that (semester, program) entry, creating the semester's map when needed. Every other sub-table, present or absent, is the same. |
| TimetableData.Install | tk_auto_time_table_gen_.py:68-71 | The (semester, program) entry of the result is the given sub-table. |
| TimetableData.CourseAttempts | tk_auto_time_table_gen_.py:74-89 | A code missing from the catalog makes no attempts. Otherwise it makes one lecture attempt per lecture hour, then one lab attempt per lab hour, none for a negative count. |
| TimetableData.AttemptsListed | tk_auto_time_table_gen_.py:73-77 | Every attempt of a semester is for a listed and catalogued code. |
| TimetableData.AttemptsSkipsUnknown | tk_auto_time_table_gen_.py:74-76 | A listed code missing from the catalog adds no attempts, at either end of the list. |
| TimetableData.AttemptsPrepend | tk_auto_time_table_gen_.py:73-89 | The attempts of a course list are those of its first code followed by those of the rest. |
| Timetable.UniversityTimetableGenerator.IsSlotTaken | tk_auto_time_table_gen_.py:119-128 | True exactly when the slot's (day, "start-end") cell is occupied in that sub-table, that is, exactly when `Taken` holds of the sub-table that `AssignCourseSlot` filters. |
| Timetable.UniversityTimetableGenerator.FindAvailableRoom | tk_auto_time_table_gen_.py:130-132 | Returns the id of some room of the requested type, or "TBD" when there is none. |
| Timetable.UniversityTimetableGenerator.AssignFaculty | tk_auto_time_table_gen_.py:134-136 | Returns the name of some registered faculty member, or "TBD" when there is none. |
| TimetableData.Filter | tk_auto_time_table_gen_.py:93-97 | The comprehension keeps exactly the elements the condition accepts, and never more than the input has. |
| Timetable.UniversityTimetableGenerator.GetSemesterTimetableText | tk_auto_time_table_gen_.py:138-173 | The placeholder message exactly when no sub-table exists. Otherwise the heading, then "Time" and the sorted days as header, then one row per sorted time key. |
| TimetableView.Cell | tk_auto_time_table_gen_.py:159-168 | A cell reads "Free" exactly when nothing is assigned there, and otherwise shows the entry's text. |
| TimetableView.CellText | tk_auto_time_table_gen_.py:161-166 | The entry's text starts with the course name on a line of its own, so it never reads "Free". |
| TimetableView.Row | tk_auto_time_table_gen_.py:156-170 | A row is the time key followed by one cell per day, in the order of the days. |
| TimetableView.Rows | tk_auto_time_table_gen_.py:149-170 | `table_data` holds one row per time key, in the order of the keys. |
| Timetable.UniversityTimetableGenerator.TimeRow | tk_auto_time_table_gen_.py:157-169 | The inner loop builds exactly the row for the time key. |
| TimetableView.Heading | tk_auto_time_table_gen_.py:142-144 | The heading starts with "Timetable for " and the program name, and ends with a line of fifty '='. |
| TimetableView.RenderedShape | tk_auto_time_table_gen_.py:146-170 | Every rendered row has one cell per header column. Its first column is a time key in use, and each day column shows that day's cell for the row's key. |
| TimetableView.RenderedShowsEveryCell | tk_auto_time_table_gen_.py:151-170 | Every assigned entry appears in the view, under its day and in its time key's row. |
| TimetableView.RenderedIsUnique | tk_auto_time_table_gen_.py:146-172 | The rows and header are determined by the sub-table. |
| StringOrder.SortedList | tk_auto_time_table_gen_.py:146 | Returns the strictly increasing list of exactly the set's elements. |
| StringOrder.Least | tk_auto_time_table_gen_.py:146 | Returns an element of the set below every other element. |
| StringOrder.SortedListUnique | tk_auto_time_table_gen_.py:154 | There is only one sorted list of a set. |
| StringOrder.SortedListLength | tk_auto_time_table_gen_.py:154 | The sorted list holds each element exactly once. |
| StringOrder.LessTotal | tk_auto_time_table_gen_.py:146 | Two different strings are ordered one way or the other. |
| StringOrder.LessTransitive | tk_auto_time_table_gen_.py:146 | String order is transitive. |
| StringOrder.Less | tk_auto_time_table_gen_.py:146 | Python's `<` on strings: the first is a proper prefix of the second, or it has the smaller character at the first position where they differ. |
| Dedup.RemoveDuplicates | leetday3.py:2-12 | An empty array gives 0 and is left as it was. Otherwise 1 ≤ r ≤ the length. The first `r` elements are the original with each run of equal neighbours collapsed to one. The first element and every element from `r` on are unchanged. |
| Dedup.StepKeepsCollapse | leetday3.py:7-10 | One pass of the loop: the value is copied to the next write position exactly when it differs from the last kept one. Either way, the collapsed prefix and the untouched suffix reach one element further. |
| Dedup.CollapseShape | leetday3.py:3-12 | Collapsing never lengthens, keeps an empty list empty, and keeps the first and the last element. |
| Dedup.CollapseNoAdjacentRepeats | leetday3.py:8-10 | Adjacent elements of the collapsed prefix differ. |
| Dedup.CollapseSameValues | leetday3.py:7-10 | The collapsed prefix holds exactly the values of the original. |
| Dedup.CollapseSorted | leetday3.py:7-10 | For sorted input the collapsed prefix is strictly increasing: each distinct value once. |
| Dedup.CollapseRepeatFree | leetday3.py:7-10 | A list without adjacent repeats is left unchanged. |
| Dedup.CollapseIdempotent | leetday3.py:2-12 | Running the collapse twice is running it once. |
| Dedup.RemoveDuplicatesExample | leetday3.py:15-17 | For [1, 1, 2] the result is 2 and the prefix is [1, 2]. |

## Left out

- The Tk GUI (`TimetableGUI`, `main`, tk_auto_time_table_gen_.py:175-749) and `portal.py` are widget layout and message boxes with no generator logic.
- The unused `mysql.connector` import is not modelled.
- `tabulate`'s grid layout is a foreign library. `GetSemesterTimetableText` returns the heading, header and rows that are handed to it (`Rendered`), not the laid-out string.
- The probability distribution of `random.choice` cannot be stated. Each pick is nondeterministic, and the contracts hold for every pick.
- The `print` in `_assign_course_slot` is I/O. It becomes an `Unassigned` warning that the generation method returns.
- The `availability` of a faculty member and the `sections` of a course are stored but never read. They are not kept.
- `int()` is modelled on ASCII text only: an optional sign followed by digits. Surrounding whitespace, `_` separators and non-ASCII digits, which Python also accepts, are not modelled.
- An end time beyond 23:59 is not wrapped. The code prints the plain quotient of total minutes by 60, for example "25:00", and the model follows the code. A reading of `set_time_slots` as minutes-of-day arithmetic modulo 1440 would give "01:00".
- Timetable.UniversityTimetableGenerator.AppendDaySlots: the inner loop of `set_time_slots`, moved into a method of its own so that its proof stays small. The source has no such method.
- Timetable.UniversityTimetableGenerator.AssignCourseHours: the body of the course loop of `generate_semester_timetable`, moved into a method of its own for the same reason.
- Timetable.UniversityTimetableGenerator.AssignHours: one `for _ in range(...)` loop of `generate_semester_timetable`, moved into a method of its own for the same reason.
- Timetable.UniversityTimetableGenerator.TimeRow: the inner loop of `get_semester_timetable_text`, moved into a method of its own for the same reason.
- Timetable.UniversityTimetableGenerator.GenerateSemesterTimetable: does not say which free slot, room or faculty member each pick chose, since `random.choice` decides it. Any choice the source could make is allowed, and only those.
- Python `defaultdict` auto-creation: the model creates a day's column only when a cell is written into it. The source creates it at the same point, because the write at line 116 always follows the access when the chosen slot is free.
