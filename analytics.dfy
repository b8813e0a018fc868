/** Analytics over a list of habits: projections, a periodicity filter and the
    longest current streak. Every operation is a function: it reads the habits
    and changes neither the list nor any habit in it. */
module Analytics {
  import opened Sorting
  import opened Habits

  /** The current streak of a habit, as its `GetStreak` method computes it. */
  function StreakOf(h: Habit): nat
    reads h
  {
    Streak(Step(h.periodicity), h.completionLog)
  }

  /** `r` is `s` with some of its elements left out, in their original order. */
  ghost predicate IsSubsequence(r: seq<Habit>, s: seq<Habit>)
    decreases |s|
  {
    r == [] || (s != [] && ((r[0] == s[0] && IsSubsequence(r[1..], s[1..])) || IsSubsequence(r, s[1..])))
  }

  /** The names of the habits, in order. */
  function GetAllHabits(habits: seq<Habit>): (names: seq<string>)
    reads habits
    ensures |names| == |habits|
    ensures forall i :: 0 <= i < |habits| ==> names[i] == habits[i].name
  {
    if habits == [] then [] else [habits[0].name] + GetAllHabits(habits[1..])
  }

  /** The habits whose periodicity equals the lower-cased `period`, in order. */
  function GetHabitsByPeriodicity(habits: seq<Habit>, period: string): (r: seq<Habit>)
    reads habits
    ensures |r| <= |habits|
    ensures IsSubsequence(r, habits)
    ensures forall h :: h in r ==> h in habits && h.periodicity == Lower(period)
    ensures forall h :: h in habits ==>
      multiset(r)[h] == if h.periodicity == Lower(period) then multiset(habits)[h] else 0
  {
    if habits == [] then
      []
    else
      var rest := GetHabitsByPeriodicity(habits[1..], period);
      assert habits == [habits[0]] + habits[1..];
      if habits[0].periodicity == Lower(period) then [habits[0]] + rest else rest
  }

  /** The longest current streak among the habits, or 0 when there are none. */
  function GetLongestStreakAll(habits: seq<Habit>): (r: nat)
    reads habits
    ensures habits == [] ==> r == 0
    ensures forall i :: 0 <= i < |habits| ==> StreakOf(habits[i]) <= r
    ensures habits != [] ==> exists i :: 0 <= i < |habits| && StreakOf(habits[i]) == r
  {
    if habits == [] then
      0
    else
      var rest := GetLongestStreakAll(habits[1..]);
      var first := StreakOf(habits[0]);
      assert forall i :: 1 <= i < |habits| ==> habits[i] == habits[1..][i - 1];
      if first >= rest then
        first
      else
        assert |habits| > 1;
        var j :| 0 <= j < |habits| - 1 && StreakOf(habits[1..][j]) == rest;
        assert StreakOf(habits[j + 1]) == rest;
        rest
  }

  /** The current streak of one habit. */
  function GetLongestStreakForHabit(habit: Habit): (r: nat)
    reads habit
    ensures r <= |habit.completionLog|
    ensures r == 0 <==> habit.completionLog == []
    ensures r == GetLongestStreakAll([habit])
  {
    StreakOf(habit)
  }
}
