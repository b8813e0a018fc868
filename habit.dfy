/** The streak engine of the habit tracker: a habit with an append-only log of
    completion timestamps, the current streak read backwards from the newest
    completion, and whether the habit was ever broken, read forwards from the
    habit's creation.

    Timestamps are integers counting microseconds, the resolution of Python's
    `datetime`; `DAY` and `WEEK` are the two `timedelta` steps. */
module Habits {
  import opened Sorting

  const DAY: int := 86_400_000_000
  const WEEK: int := 7 * DAY

  /** ASCII lower-casing of one character. */
  function LowerChar(c: char): char {
    if 'A' <= c <= 'Z' then (c as int + ('a' as int - 'A' as int)) as char else c
  }

  /** Lower-casing of a string, character by character. */
  function Lower(s: string): (r: string)
    ensures |r| == |s|
    ensures forall i :: 0 <= i < |s| ==> r[i] == LowerChar(s[i])
  {
    if s == [] then [] else [LowerChar(s[0])] + Lower(s[1..])
  }

  /** Lower-casing twice is lower-casing once: a periodicity that was stored
      lower-cased comes back unchanged through the constructor. */
  lemma LowerIdempotent(s: string)
    ensures Lower(Lower(s)) == Lower(s)
  {
  }

  /** The length of one period. Only the exact string "daily" means a day;
      every other string, valid or not, means a week. */
  function Step(periodicity: string): (step: int)
    ensures step > 0
    ensures step == DAY <==> periodicity == "daily"
    ensures step == WEEK <==> periodicity != "daily"
  {
    if periodicity == "daily" then DAY else WEEK
  }

  /** The number of leading entries of `d` such that each one after the first
      lies at most `step` before its predecessor. The first entry always
      counts; the count stops at the first larger gap. */
  function RunLength(d: seq<int>, step: int): (k: nat)
    ensures k <= |d|
    ensures d != [] ==> 1 <= k
    ensures forall i :: 0 <= i < k - 1 ==> d[i] - d[i + 1] <= step
    ensures 0 < k < |d| ==> d[k - 1] - d[k] > step
  {
    if |d| <= 1 then |d|
    else if d[0] - d[1] <= step then 1 + RunLength(d[1..], step)
    else 1
  }

  /** The streak of a completion log: the run length of its newest-first sort. */
  function Streak(step: int, log: seq<int>): (k: nat)
    ensures k <= |log|
    ensures k == 0 <==> log == []
    ensures var d := Sorted(log, true);
      (forall i :: 0 <= i < k - 1 ==> d[i] - d[i + 1] <= step) &&
      (0 < k < |log| ==> d[k - 1] - d[k] > step)
  {
    RunLength(Sorted(log, true), step)
  }

  /** Every gap between neighbours of `c` is at most `step`. */
  ghost predicate GapsWithin(c: seq<int>, step: int) {
    forall i :: 0 <= i < |c| - 1 ==> c[i + 1] - c[i] <= step
  }

  /** A habit is broken when it was never completed, or when, starting from its
      creation and walking its completions oldest-first, some completion lies
      more than `step` after the previous point. */
  ghost predicate Broken(step: int, created: int, log: seq<int>) {
    log == [] || !GapsWithin([created] + Sorted(log, false), step)
  }

  /** A run of gaps of at most `step` found one by one is the whole run. */
  lemma RunLengthUnique(d: seq<int>, step: int, k: nat)
    requires 1 <= k <= |d|
    requires forall i :: 0 <= i < k - 1 ==> d[i] - d[i + 1] <= step
    requires k < |d| ==> d[k - 1] - d[k] > step
    ensures RunLength(d, step) == k
  {
  }

  /** The streak does not depend on the order in which completions were logged. */
  lemma StreakIgnoresOrder(step: int, s: seq<int>, t: seq<int>)
    requires multiset(s) == multiset(t)
    ensures Streak(step, s) == Streak(step, t)
  {
    SortedOfPermutation(s, t, true);
  }

  /** Whether a habit was broken does not depend on the order of its log. */
  lemma BrokenIgnoresOrder(step: int, created: int, s: seq<int>, t: seq<int>)
    requires multiset(s) == multiset(t)
    ensures Broken(step, created, s) == Broken(step, created, t)
  {
    SortedOfPermutation(s, t, false);
  }

  /** Checking off at a time no earlier than every logged completion extends
      the streak by one when it lies within a step of the newest completion,
      and otherwise starts a new streak of one. */
  lemma {:induction false} StreakAfterLatestCheckOff(step: int, log: seq<int>, d: int)
    requires forall y :: y in log ==> y <= d
    ensures Streak(step, log + [d]) ==
      if log != [] && d - Sorted(log, true)[0] <= step then Streak(step, log) + 1 else 1
  {
    SortedDescWithLatest(log, d);
    var desc := Sorted(log, true);
    assert Sorted(log + [d], true) == [d] + desc;
    if desc != [] {
      assert ([d] + desc)[1..] == desc;
    }
  }

  /** Once a habit that has completions is broken, checking it off at a time
      no earlier than every logged completion leaves it broken. */
  lemma {:induction false} BrokenStaysBroken(step: int, created: int, log: seq<int>, d: int)
    requires log != [] && Broken(step, created, log)
    requires forall y :: y in log ==> y <= d
    ensures Broken(step, created, log + [d])
  {
    var a, a' := Sorted(log, false), Sorted(log + [d], false);
    SortedAscWithLatest(log, d);
    assert a' == a + [d];
    var c, c' := [created] + a, [created] + a';
    assert !GapsWithin(c, step);
    var i :| 0 <= i < |c| - 1 && c[i + 1] - c[i] > step;
    assert c'[i] == c[i] && c'[i + 1] == c[i + 1];
    assert !GapsWithin(c', step);
  }

  /** Putting in front of `a` a point no later than a step before its head
      adds no gap larger than the step. */
  lemma GapsWithinCons(start: int, a: seq<int>, step: int)
    requires a != [] && a[0] - start <= step
    ensures GapsWithin([start] + a, step) == GapsWithin(a, step)
  {
    var c := [start] + a;
    if GapsWithin(a, step) {
      forall i | 0 <= i < |c| - 1 ensures c[i + 1] - c[i] <= step {
        if i > 0 { assert c[i + 1] - c[i] == a[i] - a[i - 1]; }
      }
    } else {
      var i :| 0 <= i < |a| - 1 && a[i + 1] - a[i] > step;
      assert c[i + 2] - c[i + 1] > step;
    }
  }

  /** A completion logged no later than the creation time makes the creation
      time irrelevant: the gap from the creation to the oldest completion is
      not positive, so it never breaks the habit. */
  lemma {:induction false} EarlyCompletionMasksCreation(step: int, created: int, log: seq<int>, x: int)
    requires step >= 0
    requires x in log && x <= created
    ensures Broken(step, created, log) == !GapsWithin(Sorted(log, false), step)
  {
    var a := Sorted(log, false);
    assert x in multiset(log);
    assert x in multiset(a);
    var m :| 0 <= m < |a| && a[m] == x;
    assert m == 0 || Before(a[0], a[m], false);
    GapsWithinCons(created, a, step);
  }

  /** A habit: a name, a lower-cased periodicity, a creation time and a log of
      completion times that only ever grows at its end. */
  class Habit {
    var name: string
    var periodicity: string
    var createdDate: int
    var completionLog: seq<int>

    /** A new habit created at time `now` has not been completed yet. */
    constructor (name: string, periodicity: string, now: int)
      ensures this.name == name
      ensures this.periodicity == Lower(periodicity)
      ensures createdDate == now
      ensures completionLog == []
    {
      this.name := name;
      this.periodicity := Lower(periodicity);
      createdDate := now;
      completionLog := [];
    }

    /** Records a completion at time `date`. */
    method CheckOff(date: int)
      modifies this
      ensures completionLog == old(completionLog) + [date]
      ensures name == old(name) && periodicity == old(periodicity)
      ensures createdDate == old(createdDate)
    {
      completionLog := completionLog + [date];
    }

    /** The current streak: how many completions, newest first, follow one
        another with gaps of at most one period. */
    method GetStreak() returns (streak: nat)
      ensures streak == Streak(Step(periodicity), completionLog)
    {
      if completionLog == [] {
        return 0;
      }
      var log := Sorted(completionLog, true);
      streak := 0;
      var currentPeriod := log[0];
      var step := Step(periodicity);
      var i := 0;
      while i < |log|
        invariant 0 <= i <= |log|
        invariant streak == i
        invariant currentPeriod == log[if i == 0 then 0 else i - 1]
        invariant forall j :: 0 <= j < i - 1 ==> log[j] - log[j + 1] <= step
      {
        if currentPeriod - log[i] <= step {
          streak := streak + 1;
          currentPeriod := log[i];
        } else {
          RunLengthUnique(log, step, streak);
          return;
        }
        i := i + 1;
      }
      RunLengthUnique(log, step, streak);
    }

    /** Whether the habit was ever broken: never completed, or some period,
        counted from the creation, passed without a completion. */
    method WasBroken() returns (broken: bool)
      ensures broken == Broken(Step(periodicity), createdDate, completionLog)
    {
      if completionLog == [] {
        return true;
      }
      var log := Sorted(completionLog, false);
      var step := Step(periodicity);
      var currentExpected := createdDate;
      ghost var c := [createdDate] + log;
      var i := 0;
      while i < |log|
        invariant 0 <= i <= |log|
        invariant currentExpected == c[i]
        invariant forall j :: 0 <= j < i ==> c[j + 1] - c[j] <= step
      {
        if log[i] - currentExpected > step {
          assert c[i + 1] - c[i] > step;
          return true;
        }
        currentExpected := log[i];
        i := i + 1;
      }
      return false;
    }
  }
}
