# Habit tracker streak engine in Dafny

A model of the streak engine of a small habit tracker and of the analytics
layer over it.

A habit has four parts:
- a name;
- a periodicity string, lower-cased on construction;
- a creation time;
- a completion log that only ever grows at its end.

Two queries are answered from the log:
- the **current streak** sorts the log newest first. It counts entries while
  each lies at most one period before the previously counted one, and stops
  at the first larger gap.
- **was broken** sorts the log oldest first. It walks forward from the creation
  time and reports a break at the first gap of more than one period. A habit
  that was never completed counts as broken.

One period is a day exactly when the periodicity is the string `"daily"`, and a
week for every other string. The constructor does not check the periodicity,
and the model keeps that behaviour.

Files:
- `sorting.dfy` (module `Sorting`): Python's `sorted(xs, reverse=...)` on
  integer timestamps. It proves that the sorted copy is the only ordered
  permutation of the input, so it does not depend on the input's order.
- `habit.dfy` (module `Habits`):
  - the class `Habit`, with its fields, its constructor and the methods
    `CheckOff`, `GetStreak` and `WasBroken`;
  - the specification functions `RunLength`, `Streak` and `Broken`, which the
    two query methods are proved against;
  - lemmas about those functions.
- `analytics.dfy` (module `Analytics`): the four analytics operations. They are
  functions over a sequence of `Habit` objects, so they change neither the
  sequence nor the habits.

Timestamps are integers counting microseconds. `DAY` is 86 400 000 000 and
`WEEK` is seven days.

## Model

| member | source | states |
|---|---|---|
| `Sorting.Sorted` | habit_tracker_exmpl/models/habit.py:94 | the sorted copy is ordered (descending when `reverse`, else ascending), is a permutation of the log, and has the log's length |
| `Sorting.SortedUnique` | habit_tracker_exmpl/models/habit.py:145 | two ordered sequences with the same elements are equal, so a sorted copy is determined by the log's multiset |
| `Sorting.SortedOfPermutation` | habit_tracker_exmpl/models/habit.py:94 | logs that are permutations of each other have the same sorted copy, in either direction |
| `Habits.Lower` | habit_tracker_exmpl/models/habit.py:50 | lower-casing keeps the length and maps every character to its lower-case form |
| `Habits.LowerIdempotent` | habit_tracker_exmpl/models/habit.py:50 | lower-casing an already lower-cased periodicity changes nothing, so a stored periodicity survives the constructor |
| `Habits.Step` | habit_tracker_exmpl/models/habit.py:107 | the period is positive; it is one day iff the periodicity is exactly `"daily"`, and one week for every other string |
| `Habits.RunLength` | habit_tracker_exmpl/models/habit.py:111-122 | the count is at most the length and at least 1 on a nonempty sequence; every gap inside the counted prefix is at most `step`; the gap just after it is larger than `step` when entries remain |
| `Habits.Streak` | habit_tracker_exmpl/models/habit.py:88-126 | the streak is 0 exactly for an empty log, is at most the log's length, and is exactly the length of the newest-first prefix whose gaps are all at most `step` |
| `Habits.StreakIgnoresOrder` | habit_tracker_exmpl/models/habit.py:94 | the streak depends only on which completions were logged, not on their order |
| `Habits.BrokenIgnoresOrder` | habit_tracker_exmpl/models/habit.py:145 | whether the habit was broken depends only on which completions were logged, not on their order |
| `Habits.StreakAfterLatestCheckOff` | habit_tracker_exmpl/models/habit.py:111-122 | logging a completion no earlier than all others adds one to the streak if it is within a step of the newest completion; otherwise the streak becomes 1 |
| `Habits.BrokenStaysBroken` | habit_tracker_exmpl/models/habit.py:157-161 | a broken habit with completions stays broken after a completion no earlier than all others is logged |
| `Habits.EarlyCompletionMasksCreation` | habit_tracker_exmpl/models/habit.py:153-161 | when some completion is no later than the creation time, the gap from the creation never breaks the habit; it is broken iff some gap between sorted completions exceeds the step |
| `Habits.GapsWithinCons` | habit_tracker_exmpl/models/habit.py:153-165 | starting the forward walk from a point at most a step before the first entry adds no break |
| `Habits.Habit.constructor` | habit_tracker_exmpl/models/habit.py:37-60 | a new habit keeps its name, lower-cases its periodicity, records the creation time passed in and has an empty log |
| `Habits.Habit.CheckOff` | habit_tracker_exmpl/models/habit.py:63-77 | the log becomes the old log with exactly `date` appended; name, periodicity and creation time are unchanged |
| `Habits.Habit.GetStreak` | habit_tracker_exmpl/models/habit.py:80-126 | the loop with its early `break` returns `Streak` of the habit's step and log; the method modifies nothing |
| `Habits.Habit.WasBroken` | habit_tracker_exmpl/models/habit.py:129-169 | the loop with its early `return` reports true iff the log is empty or some gap from the creation through the oldest-first log exceeds the step; the method modifies nothing |
| `Analytics.GetAllHabits` | habit_tracker_exmpl/analytics/analytics_module.py:19-27 | the result has one name per habit, and the i-th name is the i-th habit's name |
| `Analytics.GetHabitsByPeriodicity` | habit_tracker_exmpl/analytics/analytics_module.py:32-41 | the result is an order-preserving subsequence of the input, no longer than it; every kept habit has periodicity `Lower(period)`; every matching habit is kept as often as it occurs, and no other habit is kept |
| `Analytics.GetLongestStreakAll` | habit_tracker_exmpl/analytics/analytics_module.py:46-59 | 0 for no habits; otherwise at least every habit's streak and equal to some habit's streak |
| `Analytics.GetLongestStreakForHabit` | habit_tracker_exmpl/analytics/analytics_module.py:64-72 | the habit's streak: 0 exactly when its log is empty, at most its log's length, and equal to the longest streak over the one-element list holding it |

## Left out

- The clock: `datetime.now()` in the constructor (habit.py:55) and in `check_off` (habit.py:72) is replaced by an explicit `now` or `date` parameter. `CheckOff` has no default argument.
- Calendar and time-zone semantics of `datetime`: timestamps are plain integers in microseconds, and a period is a fixed number of them.
- `Habits.Lower`: lower-cases ASCII letters only. Python's `str.lower` also maps other Unicode letters. The filter and the constructor need only a fixed lower-casing function.
- Periodicity validation: the code accepts any string and treats every string other than `"daily"` as weekly. The model keeps this rather than restricting periodicity to two values.
- Aliasing of the completion list: the log is a `seq` field that `CheckOff` reassigns. Code that appends to the same Python list through another reference (db_handler.py:119) is not modelled.
- Ties for the longest streak: Python's `max` returns the first maximal element, and the model returns a maximal value, which is the same number.
- Sorting is modelled as a function, not an in-place method, because `sorted` returns a fresh list and leaves the log untouched.
- Persistence (`db/db_handler.py`) and the interactive menu (`main.py`) are not part of this model.
