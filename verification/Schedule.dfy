/**
 Forms that open and close by the clock: one form looked at by itself, and all of them in three bulk updates.
 */
module Schedule {
  import opened Options

  type Time = int

  datatype Status = Draft | Scheduled | Published | Closed | Archived

  datatype Timed = Timed(status: Status, openAt: Option<Time>, closeAt: Option<Time>)

  predicate Reached(at: Option<Time>, now: Time) {
    at.Some? && at.value <= now
  }

  /** What looking at one form at a moment makes of it. */
  function Evaluate(f: Timed, now: Time): Timed {
    match f.status
    case Scheduled =>
      if Reached(f.closeAt, now) then f.(status := Closed)
      else if Reached(f.openAt, now) then f.(status := Published)
      else f
    case Published => if Reached(f.closeAt, now) then f.(status := Closed) else f
    case _ => f
  }

  /** A bulk update: every form the filter selects gets the status. */
  function UpdateWhere(table: map<nat, Timed>, filter: Timed -> bool, status: Status): map<nat, Timed> {
    map id | id in table :: if filter(table[id]) then table[id].(status := status) else table[id]
  }

  /** A scheduled form opens at its time, and a scheduled or published one closes at its time; no other form changes. */
  ghost predicate FollowsClock(f: Timed, g: Timed, now: Time) {
    var (opens, closes) := (f.openAt.Some? && f.openAt.value <= now, f.closeAt.Some? && f.closeAt.value <= now);
    && g.openAt == f.openAt && g.closeAt == f.closeAt
    && (g.status == Published <==> !closes && (f.status == Published || (f.status == Scheduled && opens)))
    && (g.status == Closed <==>
          f.status == Closed || (closes && (f.status == Published || f.status == Scheduled)))
    && (g.status == Scheduled <==> f.status == Scheduled && !opens && !closes)
    && (g.status == Draft <==> f.status == Draft)
  }

  class Forms {
    var table: map<nat, Timed>

    /** Three bulk updates, one after the other, do to every form what looking at it alone would do. */
    method SyncAll(now: Time)
      modifies this
      ensures table == map id | id in old(table) :: Evaluate(old(table)[id], now)
      ensures forall id :: id in old(table) ==> id in table && FollowsClock(old(table)[id], table[id], now)
    {
      table := UpdateWhere(table, (f: Timed) => f.status == Scheduled && Reached(f.closeAt, now), Closed);
      table := UpdateWhere(table, (f: Timed) => f.status == Scheduled && Reached(f.openAt, now)
          && !Reached(f.closeAt, now), Published);
      table := UpdateWhere(table, (f: Timed) => f.status == Published && Reached(f.closeAt, now), Closed);
    }
  }

  // ----- polling is history-free -------------------------------------------------------------------------------------

  function Polled(f: Timed, times: seq<Time>): Timed {
    if times == [] then f else Evaluate(Polled(f, times[..|times| - 1]), times[|times| - 1])
  }

  /** However often a form was looked at before, and whether it was at all, only the last moment matters. */
  lemma {:induction false} OnlyTheLastPollMatters(f: Timed, times: seq<Time>)
    requires times != [] && forall i, j :: 0 <= i < j < |times| ==> times[i] <= times[j]
    ensures Polled(f, times) == Evaluate(f, times[|times| - 1])
    ensures FollowsClock(f, Polled(f, times), times[|times| - 1])
  {
    var before := times[..|times| - 1];
    if before == [] {
    } else {
      OnlyTheLastPollMatters(f, before);
      assert before[|before| - 1] == times[|times| - 2];
    }
  }
}
