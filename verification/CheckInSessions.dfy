/** The check-in sessions of a hackathon. */
module CheckInSessions {
  // There are those of its schedule, retired ones that people were scanned into, and hand-made ones.

  import opened Attendance
  import opened Options

  const MAX_DAYS := 14
  const SLOTS := [Morning, Afternoon, Evening]
  const MAX_CUSTOM_SESSIONS := 60

  /** A session of the schedule; `outside` marks one that left it. */
  datatype Planned = Planned(date: Day, outside: bool)

  datatype Custom = Custom(date: Day, title: string, outside: bool)

  /** `main` is where the arrival session sits; `checkedIn` and `joined` are the sessions with people checked in. */
  datatype Sessions = Sessions(
    planned: map<Key, Planned>, main: Key, checkedIn: set<Key>, custom: map<nat, Custom>, joined: set<nat>)

  function Clamp(value: int, low: int, high: int): (r: int)
    requires low <= high
    ensures low <= r <= high && (low <= value <= high ==> r == value)
  {
    var capped := if value < high then value else high;
    if capped < low then low else capped
  }

  /** The days and slots actually used; what is not a number counts as one. */
  function ClampSchedule(days: Option<int>, slots: Option<int>): (r: (nat, nat))
    ensures 1 <= r.0 <= MAX_DAYS && 1 <= r.1 <= |SLOTS|
  {
    (Clamp(days.GetOr(1), 1, MAX_DAYS), Clamp(slots.GetOr(1), 1, |SLOTS|))
  }

  datatype Plan = Plan(days: Option<int>, slots: Option<int>, start: Day)

  /** The schedule has this day and slot, or it is the arrival session's. */
  predicate Scheduled(p: Plan, main: Key, k: Key) {
    (k.day < ClampSchedule(p.days, p.slots).0 && k.slot in SLOTS[..ClampSchedule(p.days, p.slots).1]) || k == main
  }

  function ScheduledKeys(p: Plan, main: Key): set<Key> {
    (set day, slot | 0 <= day < MAX_DAYS && slot in SLOTS && Scheduled(p, main, Key(day, slot)) :: Key(day, slot))
        + {main}
  }

  lemma ScheduledKeysAre(p: Plan, main: Key)
    ensures forall k :: k in ScheduledKeys(p, main) <==> Scheduled(p, main, k)
  {
    forall k ensures k in ScheduledKeys(p, main) <==> Scheduled(p, main, k) {
      assert k.slot in SLOTS by {
        match k.slot {
          case Morning => assert SLOTS[0] == Morning;
          case Afternoon => assert SLOTS[1] == Afternoon;
          case Evening => assert SLOTS[2] == Evening;
        }
      }
      if Scheduled(p, main, k) && k != main { assert Key(k.day, k.slot) == k; }
    }
  }

  /** The main session sits on the schedule, and people are only checked in to sessions that exist. */
  predicate Consistent(s: Sessions) {
    s.main in s.planned && s.checkedIn <= s.planned.Keys && s.joined <= s.custom.Keys
  }

  /**
   The planned sessions match the plan: each is either on it, on the right date, or outside it and kept for its
   check-ins.
   */
  ghost predicate InStep(s: Sessions, p: Plan) {
    && (forall k :: Scheduled(p, s.main, k) ==> k in s.planned && s.planned[k] == Planned(p.start + k.day, false))
    && (forall k :: k in s.planned && !Scheduled(p, s.main, k) ==> s.planned[k].outside && k in s.checkedIn)
  }

  /** What a session of the schedule becomes. */
  function SyncedSession(s: Sessions, p: Plan, k: Key): Planned
    requires Scheduled(p, s.main, k) || k in s.planned
  {
    if Scheduled(p, s.main, k) then Planned(p.start + k.day, false) else s.planned[k].(outside := true)
  }

  function Synced(s: Sessions, p: Plan): Sessions {
    s.(planned := map k | k in s.planned.Keys + ScheduledKeys(p, s.main)
        && (Scheduled(p, s.main, k) || (k in s.planned && k in s.checkedIn)) :: SyncedSession(s, p, k))
  }

  /** A number as given, but at least one and at most `most`; one if there is none. */
  predicate Limited(given: Option<int>, most: int, n: int) {
    if given.None? || given.value < 1 then n == 1
    else if given.value > most then n == most
    else n == given.value
  }

  /** The schedule, of at most 14 days with at most three slots each, has this day and slot; the arrival does anyway. */
  ghost predicate OnSchedule(p: Plan, main: Key, k: Key) {
    k == main || exists days, slots ::
      && Limited(p.days, 14, days) && Limited(p.slots, 3, slots) && k.day < days
      && (k.slot == Afternoon ==> slots >= 2) && (k.slot == Evening ==> slots >= 3)
  }

  lemma SlotsUpTo(n: nat)
    requires 1 <= n <= 3
    ensures forall slot :: slot in SLOTS[..n] <==> (slot == Afternoon ==> n >= 2) && (slot == Evening ==> n >= 3)
  {
    assert SLOTS[0] == Morning && SLOTS[1] == Afternoon && SLOTS[2] == Evening;
    assert SLOTS[..n][0] == Morning;
    if n >= 2 { assert SLOTS[..n][1] == Afternoon; }
    if n >= 3 { assert SLOTS[..n][2] == Evening; }
  }

  lemma ScheduledMeans(p: Plan, main: Key, k: Key)
    ensures Scheduled(p, main, k) <==> OnSchedule(p, main, k)
  {
    var (days, slots) := ClampSchedule(p.days, p.slots);
    assert Limited(p.days, 14, days) && Limited(p.slots, 3, slots);
    SlotsUpTo(slots);
  }

  /**
   Every session on the schedule is there, on its date and not marked; of the others only those with check-ins stay,
   marked and otherwise as they were.
   */
  ghost predicate Followed(before: Sessions, after: Sessions, p: Plan) {
    && (forall k :: Get(after.planned, k) ==
          if OnSchedule(p, before.main, k) then Some(Planned(p.start + k.day, false))
          else if k in before.checkedIn && k in before.planned then Some(Planned(before.planned[k].date, true))
          else None)
    && after == before.(planned := after.planned)
  }

  lemma SyncMeans(s: Sessions, p: Plan)
    ensures Followed(s, Synced(s, p), p)
  {
    ScheduledKeysAre(p, s.main);
    forall k ensures Scheduled(p, s.main, k) <==> OnSchedule(p, s.main, k) { ScheduledMeans(p, s.main, k); }
  }

  // ----- what every run keeps ----------------------------------------------------------------------------------------

  datatype Step = Sync(plan: Plan) | CheckIn(key: Key) | Join(id: nat) | Add(id: nat, session: Custom) | Remove(id: nat)

  function Added(s: Sessions, id: nat, session: Custom): Sessions {
    if id in s.custom || |s.custom| >= MAX_CUSTOM_SESSIONS then s
        else s.(custom := s.custom[id := session.(outside := false)])
  }

  /** A hand-made session with people checked in is retired instead of deleted. */
  function Removed(s: Sessions, id: nat): Sessions {
    if id !in s.custom then s
    else if id in s.joined then s.(custom := s.custom[id := s.custom[id].(outside := true)])
    else s.(custom := s.custom - {id})
  }

  function Apply(s: Sessions, step: Step): Sessions {
    match step
    case Sync(p) => Synced(s, p)
    case CheckIn(k) => if k in s.planned && !s.planned[k].outside then s.(checkedIn := s.checkedIn + {k}) else s
    case Join(id) => if id in s.custom && !s.custom[id].outside then s.(joined := s.joined + {id}) else s
    case Add(id, session) => Added(s, id, session)
    case Remove(id) => Removed(s, id)
  }

  function Run(s: Sessions, steps: seq<Step>): Sessions {
    if steps == [] then s else Apply(Run(s, steps[..|steps| - 1]), steps[|steps| - 1])
  }

  function LatestPlan(p: Plan, steps: seq<Step>): Plan {
    if steps == [] then p
    else if steps[|steps| - 1].Sync? then steps[|steps| - 1].plan else LatestPlan(p, steps[..|steps| - 1])
  }

  lemma SyncSettles(s: Sessions, p: Plan)
    requires Consistent(s)
    ensures Consistent(Synced(s, p)) && InStep(Synced(s, p), p)
    ensures Synced(s, p) == s.(planned := Synced(s, p).planned)
  {
    ScheduledKeysAre(p, s.main);
  }

  lemma StepKeeps(s: Sessions, p: Plan, step: Step)
    requires Consistent(s) && InStep(s, p)
    ensures var t := Apply(s, step);
      && Consistent(t) && InStep(t, if step.Sync? then step.plan else p)
      && t.main == s.main && s.checkedIn <= t.checkedIn && s.joined <= t.joined
  {
    if step.Sync? { SyncSettles(s, step.plan); }
  }

  /**
   The main result: after any run, a session of the schedule is marked outside it exactly when the latest plan does
   not want its day and slot, every wanted one exists on its date, and no session with people checked in is ever
   deleted.
   */
  lemma {:induction false} SessionsFollowThePlan(s: Sessions, p: Plan, steps: seq<Step>)
    requires Consistent(s) && InStep(s, p)
    ensures var (t, latest) := (Run(s, steps), LatestPlan(p, steps));
      && Consistent(t) && InStep(t, latest)
      && t.main == s.main && s.checkedIn <= t.checkedIn && s.joined <= t.joined
  {
    if steps == [] {
    } else {
      SessionsFollowThePlan(s, p, steps[..|steps| - 1]);
      StepKeeps(Run(s, steps[..|steps| - 1]), LatestPlan(p, steps[..|steps| - 1]), steps[|steps| - 1]);
    }
  }

  /** Sessions that match the plan are left alone. */
  lemma SyncingTwice(s: Sessions, p: Plan)
    requires Consistent(s)
    ensures Synced(s, p) == s <==> InStep(s, p)
    ensures Synced(Synced(s, p), p) == Synced(s, p)
  {
    ScheduledKeysAre(p, s.main);
    SyncSettles(s, p);
    InStepStays(s, p);
    InStepStays(Synced(s, p), p);
  }

  lemma InStepStays(s: Sessions, p: Plan)
    requires Consistent(s)
    ensures InStep(s, p) ==> Synced(s, p) == s
  {
    ScheduledKeysAre(p, s.main);
    if InStep(s, p) { assert Synced(s, p).planned == s.planned; }
  }

  // ----- the same as code that updates rows in place -----------------------------------------------------------------

  class SessionBook {
    var planned: map<Key, Planned>
    var main: Key
    var checkedIn: set<Key>
    var custom: map<nat, Custom>
    var joined: set<nat>
    /** How many rows have been created, changed or deleted. */
    var writes: nat

    function View(): Sessions
      reads this
    {
      Sessions(planned, main, checkedIn, custom, joined)
    }

    predicate Valid()
      reads this
    {
      Consistent(View())
    }

    constructor (date: Day)
      ensures Valid() && planned == map[Key(0, Morning) := Planned(date, false)] && main == Key(0, Morning)
          && custom == map[] && writes == 0
    {
      main := Key(0, Morning);
      planned := map[Key(0, Morning) := Planned(date, false)];
      checkedIn, custom, joined, writes := {}, map[], {}, 0;
    }

    /** Adds what is missing and refreshes what is there. */
    method RefreshWanted(p: Plan, wanted: set<Key>)
      modifies this`planned, this`writes
      ensures planned == map k | k in old(planned).Keys + wanted ::
          if k in wanted then Planned(p.start + k.day, false) else old(planned)[k]
      ensures writes >= old(writes) && (writes == old(writes) <==> planned == old(planned))
    {
      var todo := wanted;
      while todo != {}
        invariant todo <= wanted
        invariant planned == map k | k in old(planned).Keys + (wanted - todo) ::
                               if k in wanted && k !in todo then Planned(p.start + k.day, false) else old(planned)[k]
        invariant writes >= old(writes) && (writes == old(writes) <==> planned == old(planned))
        decreases todo
      {
        var k :| k in todo;
        todo := todo - {k};
        if Get(planned, k) != Some(Planned(p.start + k.day, false)) {
          planned, writes := planned[k := Planned(p.start + k.day, false)], writes + 1;
          assert Get(old(planned), k) != Get(planned, k);
        }
      }
      assert wanted - todo == wanted;
    }

    /** Retires or deletes what left the schedule. */
    method RetireOthers(wanted: set<Key>)
      modifies this`planned, this`writes
      ensures planned == map k | k in old(planned) && (k in wanted || k in checkedIn) ::
                           if k in wanted then old(planned)[k] else old(planned)[k].(outside := true)
      ensures writes >= old(writes) && (writes == old(writes) <==> planned == old(planned))
    {
      var todo := planned.Keys;
      while todo != {}
        invariant todo <= planned.Keys
        invariant planned == map k | k in old(planned) && (k in todo || k in wanted || k in checkedIn) ::
                               if k in wanted || k in todo then old(planned)[k] else old(planned)[k].(outside := true)
        invariant writes >= old(writes) && (writes == old(writes) <==> planned == old(planned))
        decreases todo
      {
        var k :| k in todo;
        todo := todo - {k};
        if k !in wanted {
          if k in checkedIn {
            if !planned[k].outside {
              planned, writes := planned[k := planned[k].(outside := true)], writes + 1;
              assert Get(old(planned), k) != Get(planned, k);
            }
          } else {
            planned, writes := planned - {k}, writes + 1;
          }
        }
      }
    }

    method BothPasses(p: Plan)
      requires Valid()
      modifies this`planned, this`writes
      ensures View() == Synced(old(View()), p)
      ensures writes == old(writes) <==> InStep(old(View()), p)
    {
      var wanted := ScheduledKeys(p, main);
      RefreshWanted(p, wanted);
      ghost var between := planned;
      RetireOthers(wanted);
      TwoPasses(old(View()), p, between, planned);
    }

    /** Makes the sessions match the plan; nothing is written when they already do. */
    method SyncSchedule(p: Plan)
      requires Valid()
      modifies this`planned, this`writes
      ensures Valid() && View() == Synced(old(View()), p) && InStep(View(), p)
      ensures writes == old(writes) <==> InStep(old(View()), p)
      ensures Followed(old(View()), View(), p)
    {
      SyncSettles(View(), p);
      SyncMeans(View(), p);
      BothPasses(p);
    }

    method CreateCustom(id: nat, session: Custom) returns (created: bool)
      requires Valid() && id !in custom
      modifies this`custom
      ensures Valid() && View() == Added(old(View()), id, session)
      ensures created <==> |old(custom)| < 60
      ensures custom == if created then old(custom)[id := Custom(session.date, session.title, false)] else old(custom)
    {
      if |custom| >= MAX_CUSTOM_SESSIONS {
        return false;
      }
      custom := custom[id := session.(outside := false)];
      return true;
    }

    method DeleteCustom(id: nat) returns (retired: bool)
      requires Valid() && id in custom
      modifies this`custom
      ensures Valid() && View() == Removed(old(View()), id)
      ensures retired <==> id in custom
      ensures retired <==> id in joined
      ensures custom == if retired then old(custom)[id := Custom(old(custom)[id].date, old(custom)[id].title, true)]
          else old(custom) - {id}
    {
      if id in joined {
        custom := custom[id := custom[id].(outside := true)];
        return true;
      }
      custom := custom - {id};
      return false;
    }
  }

  /** The two passes, creating and refreshing and then retiring and deleting. */
  ghost predicate Passes(s: Sessions, p: Plan, between: map<Key, Planned>, after: map<Key, Planned>) {
    && between == (map k | k in s.planned.Keys + ScheduledKeys(p, s.main) ::
                     if k in ScheduledKeys(p, s.main) then Planned(p.start + k.day, false) else s.planned[k])
    && after == (map k | k in between && (k in ScheduledKeys(p, s.main) || k in s.checkedIn) ::
                   if k in ScheduledKeys(p, s.main) then between[k] else between[k].(outside := true))
  }

  lemma PassesSync(s: Sessions, p: Plan, between: map<Key, Planned>, after: map<Key, Planned>)
    requires Consistent(s) && Passes(s, p, between, after)
    ensures after == Synced(s, p).planned
  {
    ScheduledKeysAre(p, s.main);
  }

  /**
   Together they are one synchronisation, and both leave everything alone exactly when the sessions match the plan.
   */
  lemma TwoPasses(s: Sessions, p: Plan, between: map<Key, Planned>, after: map<Key, Planned>)
    requires Consistent(s) && Passes(s, p, between, after)
    ensures after == Synced(s, p).planned
    ensures between == s.planned && after == between <==> InStep(s, p)
  {
    PassesSync(s, p, between, after);
    InStepStays(s, p);
    SyncSettles(s, p);
    if InStep(s, p) {
      ScheduledKeysAre(p, s.main);
      assert between == s.planned;
    }
  }
}
