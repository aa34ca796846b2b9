/**
 A member's streaks of consecutive solved days, rebuilt from the days themselves: the longest one and the one that ends
 on the last solved day.
 */
module Streaks {
  import opened Options

  /** Day numbers. */
  type Day = int

  /** The n days up to and including `last` were all solved. */
  predicate Streak(solved: set<Day>, last: Day, n: nat) {
    forall d :: last - n < d <= last ==> d in solved
  }

  /** n is as long as the streak ending on that day gets. */
  predicate Whole(solved: set<Day>, last: Day, n: nat) {
    Streak(solved, last, n) && last - n !in solved
  }

  ghost predicate LongestIs(solved: set<Day>, n: nat) {
    && (exists last :: Streak(solved, last, n))
    && (forall last, m: nat :: Streak(solved, last, m) ==> m <= n)
  }

  predicate Ascending(days: seq<Day>) {
    forall i, j :: 0 <= i < j < |days| ==> days[i] < days[j]
  }

  lemma WholeIsUnique(solved: set<Day>, last: Day, m: nat, n: nat)
    requires Whole(solved, last, m) && Whole(solved, last, n)
    ensures m == n
  {
  }

  /** A later day extends the streak of the day before it, or starts a new one; older streaks are not affected. */
  lemma Extends(solved: set<Day>, previous: Option<Day>, run: nat, longest: nat, day: Day)
    requires forall d :: d in solved ==> d < day
    requires previous.Some? ==> previous.value in solved && Whole(solved, previous.value, run) && forall d ::
        d in solved ==> d <= previous.value
    requires previous.None? ==> solved == {}
    requires LongestIs(solved, longest)
    ensures var now := if previous == Some(day - 1) then run + 1 else 1;
      Whole(solved + {day}, day, now) && LongestIs(solved + {day}, if longest < now then now else longest)
  {
    var now := if previous == Some(day - 1) then run + 1 else 1;
    var after := solved + {day};
    assert Whole(after, day, now);
    forall last, m: nat | Streak(after, last, m) ensures m <= (if longest < now then now else longest) {
      if last == day {
        assert m > now ==> day - now in after;
      } else if m > 0 {
        assert last in after;
        assert Streak(solved, last, m);
      }
    }
    var last :| Streak(solved, last, longest);
    assert Streak(after, last, longest) && Streak(after, day, now);
  }

  /**
   The longest streak, the streak ending on the last solved day, and that day. The backward search always gets to that
   day, so the current streak does not depend on how long ago it was.
   */
  method RebuildUserStreak(days: seq<Day>, today: Day) returns (current: nat, longest: nat, previous: Option<Day>)
    requires Ascending(days) && forall i :: 0 <= i < |days| ==> days[i] <= today
    ensures var solved := set d | d in days;
      && LongestIs(solved, longest) && current <= longest
      && (if days == [] then previous == None && current == 0
          else previous == Some(days[|days| - 1]) && Whole(solved, previous.value, current) && current > 0)
  {
    var run := 0;
    current, longest, previous := 0, 0, None;
    ghost var solved: set<Day> := {};
    assert Streak(solved, 0, 0);
    forall last, m: nat | Streak(solved, last, m) ensures m <= 0 { assert m > 0 ==> last in solved; }
    for n := 0 to |days|
      invariant solved == set d | d in days[..n]
      invariant previous == if n == 0 then None else Some(days[n - 1])
      invariant n > 0 ==> Whole(solved, days[n - 1], run) && 0 < run <= longest
      invariant LongestIs(solved, longest)
    {
      Extends(solved, previous, run, longest, days[n]);
      run := if previous.Some? && days[n] == previous.value + 1 then run + 1 else 1;
      longest := if longest < run then run else longest;
      previous := Some(days[n]);
      solved := solved + {days[n]};
    }
    assert days[..|days|] == days && solved == set d | d in days;
    if previous.Some? {
      var cursor := today;
      while previous.value < cursor
        invariant previous.value <= cursor <= today
        invariant current == 0 && (cursor == previous.value ==> cursor == today)
      {
        cursor := cursor - 1;
        if previous.value == cursor {
          current := run;
          break;
        }
      }
      if previous.value == today {
        current := run;
      }
    }
  }

  /** What is reported as current is the streak that is still running today exactly when today was solved. */
  lemma CurrentIsRunning(solved: set<Day>, last: Day, today: Day, current: nat, running: nat)
    requires last in solved && last <= today && forall d :: d in solved ==> d <= last
    requires Whole(solved, last, current) && Whole(solved, today, running)
    ensures current == running <==> last == today
  {
    if last == today {
      WholeIsUnique(solved, last, current, running);
    } else {
      assert running > 0 ==> today in solved;
    }
  }
}
